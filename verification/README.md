# Advent of Code 2024 solvers, modelled in Dafny

This project models the puzzle solvers of a Rust Advent of Code 2024
workspace, together with the runner's number conversions. Each solver is a
small pure computation over a parsed text input:

- **Day 1**: two columns of location ids are sorted and paired up, and the
  absolute differences are summed.
- **Day 2**: a report of levels is safe when it moves in one direction by 1
  to 3 at each step. It is "dampened" safe when removing one level makes it
  safe.
- **Day 3**: corrupted memory is scanned for `mul(a,b)`, `do()` and
  `don't()`. The products are summed, either all of them or only those not
  switched off.
- **Day 5**: ordering rules `a|b` become a comparator on pages. Updates
  already in order contribute their middle page. The others are sorted
  first.
- **Day 6**: a guard walks a grid by casting rays to the next obstacle and
  turning right. The answer counts the cells it covered.
- **Day 7**: an equation holds when some vector of `+`/`*` operators,
  applied left to right, produces the target. The vectors come from a
  hand-written iterator.
- **Day 9**: a dense disk map expands into file and free blocks. Compaction
  moves the last file block into the first free slot. The checksum weighs
  each file id by its position.
- **Runner**: `u8` day and part numbers convert to and from the `Day` and
  `Part` enums.

The code layout:

- There is one module per crate: `Day01` … `Day09` and `RunAoc`.
- `Wrappers` holds `Option` and `Result`.
- `Text` holds the pieces of Rust's standard library and of nom that the
  parsers rely on: `split_whitespace`, `lines`, `trim`, `str::len`,
  `i64::from_str`, and nom's `u64` and `tag`.
- `Sorting` holds a sort on integers. It stands in for `sort_unstable` and
  is proved to give the unique sorted permutation.

Integers are unbounded. A panic in the source (an `unwrap`, a `usize`
underflow) becomes an explicit `None` or `Err` where the model keeps the
path. Loops that need not terminate (the day 6 patrol, day 9 `fragment`)
run on a `fuel` argument.

## Model

| member | source | states |
|---|---|---|
| RunAoc.DayTryFrom | run_aoc/src/main.rs:32-44 | Accepts exactly 1, 2, 3, 5, 6, 7, 8 and 9. Every other number, 4 included, is rejected with `InvalidDayError` carrying that number. `Four` is never produced. |
| RunAoc.DayToU8 | run_aoc/src/main.rs:47-57 | A day converts to a number from 1 to 9. |
| RunAoc.DayNumberRoundTrip | run_aoc/src/main.rs:17-51 | Every accepted number converts to a day and back to itself, because the value is the declaration index plus one. |
| RunAoc.DayEnumRoundTrip | run_aoc/src/main.rs:17-51 | Every day except `Four` converts to its number and back to itself. `Four` converts to 4, which `try_from` rejects. |
| RunAoc.PartTryFrom | run_aoc/src/main.rs:111-117 | Accepts exactly 1 and 2. Anything else is rejected with `InvalidPartError` carrying the number. |
| RunAoc.PartToU8 | run_aoc/src/main.rs:120-124 | A part converts to 1 or 2. |
| RunAoc.PartRoundTrip | run_aoc/src/main.rs:102-124 | Parts and their numbers convert into each other in both directions. |
| Text.ParseUnsigned | day03/src/lib.rs:135-144 | nom's `complete::u64`: succeeds exactly when the input starts with a digit and the value of the leading digit run fits. It consumes that whole run and nothing else. |
| Text.ParseUnsignedShowNat | day03/src/lib.rs:135-144 | A number in range, written in decimal and followed by a non-digit, reads back with the rest untouched. |
| Text.Words | day02/src/lib.rs:23-26 | `split_whitespace` yields non-empty tokens free of whitespace. |
| Text.WordsUnwords | day02/src/lib.rs:23-26 | Tokens joined by single spaces split back into the same tokens. |
| Text.Lines | day01/src/lib.rs:10-12 | `lines` yields lines without line feeds. Empty text has no lines, and any other text has at least one. |
| Text.LinesUnlines | day01/src/lib.rs:10-12 | Lines each terminated by `\n` split back into the same lines. |
| Text.LinesCons | day01/src/lib.rs:10-12 | A line ended by `\n` is split off as the first line, with one trailing `\r` dropped, and the rest is split on its own. |
| Text.Trim | day06/src/lib.rs:215 | `trim` removes whitespace at both ends and nothing else. The result is one contiguous part of the text with only whitespace before and after it, and it neither starts nor ends with whitespace. |
| Text.TrimOfTrimmed | day06/src/lib.rs:215 | Text without whitespace at its ends is its own trim. |
| Text.Utf8Length | day06/src/lib.rs:217-219 | `str::len` counts UTF-8 bytes: between one and four per character. |
| Text.Utf8LengthOfAscii | day06/src/lib.rs:217-219 | ASCII text has one byte per character, so for the puzzle's grids the width is the character count. |
| Text.Utf8LengthAppend | day06/src/lib.rs:217-219 | The byte length of a concatenation is the sum of the byte lengths. |
| Text.ParseI64 | day01/src/lib.rs:5 | `i64::from_str` only yields 64-bit values, and only for text that does not start with whitespace. |
| Text.ParseI64ShowInt | day01/src/lib.rs:5 | Every 64-bit integer reads back from its decimal rendering. |
| Text.Tag | day03/src/lib.rs:146-156 | nom's `tag` succeeds exactly when the input starts with the tag, and returns what follows it. |
| Text.TagAppend | day03/src/lib.rs:146-156 | A tag followed by anything is recognised, leaving that rest. |
| Text.ParsedI64s | day01/src/lib.rs:2-6 | `filter_map(parse)` keeps at most one value per token, each a 64-bit integer. There is one value per token exactly when every token parses, and value `i` is then the value of token `i`. Nothing is kept exactly when no token parses. |
| Text.ParsedI64sAppend | day02/src/lib.rs:23-26 | Filtering two lists of tokens in turn keeps the survivors of the first, then those of the second. |
| Text.ParsedI64sOne | day02/src/lib.rs:23-26 | One token gives its value when it reads as an `i64`, and nothing otherwise. With `Text.ParsedI64sAppend` this fixes the result for every list: the tokens that parse, in order. |
| Sorting.Sort | day01/src/lib.rs:16-17 | The result is sorted and a permutation of the input. |
| Sorting.SortedUnique | day01/src/lib.rs:16-17 | Two sorted permutations of the same multiset are equal. So any sort, stable or not, returns the same list of integers. |
| Sorting.SortIsTheSortedPermutation | day01/src/lib.rs:16-17 | Sorting returns exactly the sorted permutation of its input. |
| Sorting.SortPermutationInvariant | day01/src/lib.rs:16-17 | Inputs that are permutations of each other sort to the same list. |
| Day01.ParseInputLine | day01/src/lib.rs:1-8 | A line gives a pair exactly when it has at least two whitespace tokens and both of the first two parse as `i64`. The pair is those two values. |
| Day01.ParseInputLineRoundTrip | day01/src/lib.rs:1-8 | Two 64-bit integers written with any whitespace between them read back as that pair. |
| Day01.ParseInput | day01/src/lib.rs:10-12 | Both columns have one entry per line of the input. |
| Day01.ParseLines | day01/src/lib.rs:10-12 | The columns exist exactly when every line parses, and entry `i` of each column comes from line `i`. |
| Day01.Columns | day01/src/lib.rs:10-12 | Unzipping the parsed pairs: entry `i` of the two columns is pair `i`. |
| Day01.TotalDistance | day01/src/lib.rs:14-23 | The total distance is 0 exactly when the two columns hold the same ids, each as many times. |
| Day01.PairwiseDistanceZero | day01/src/lib.rs:19-22 | The sum of the absolute differences of paired entries is 0 exactly when the two lists are equal. |
| Day01.SameIdsSameSort | day01/src/lib.rs:16-17 | Two columns sort to the same list exactly when they hold the same ids, each as many times. |
| Day01.TotalDistanceIgnoresOrder | day01/src/lib.rs:14-23 | Reordering either column leaves the total distance unchanged. |
| Day01.TotalDistanceOfInput | day01/src/lib.rs:14-23 | The distance exists exactly when the input parses, and is then non-negative. |
| Day01.ExampleTotalDistance | day01/src/lib.rs:48-59 | Columns holding 3 4 2 1 3 3 and 4 3 5 3 9 3, in any order, have total distance 11. |
| Day02.ParseReport | day02/src/lib.rs:22-29 | A report has at most one level per token, each a 64-bit value. |
| Day02.ParseReportOfWords | day02/src/lib.rs:22-29 | Tokens joined by spaces parse to what `filter_map` keeps of them. By `Text.ParsedI64sAppend` and `Text.ParsedI64sOne`, that is the tokens that read as `i64`, in order. |
| Day02.ExampleReportDropsToken | day02/src/lib.rs:22-29 | `1 x 3` parses to the levels 1 and 3: the token that does not parse is dropped. |
| Day02.ParseReportRoundTrip | day02/src/lib.rs:22-29 | Levels written out with single spaces parse back to the same levels. |
| Day02.SafeFrom | day02/src/lib.rs:33-62 | The `windows(2)` loop as written. `Day02.SafeFromMeaning` states what it accepts. |
| Day02.SafeFromMeaning | day02/src/lib.rs:33-62 | The `windows(2)` loop, given the direction so far, accepts exactly the remaining steps that all lie in 1..=3, or all in -3..=-1, matching that direction. |
| Day02.LevelsAreSafe | day02/src/lib.rs:33-62 | Safe exactly when all steps rise by 1 to 3, or all fall by 1 to 3. |
| Day02.ShortReportsAreSafe | day02/src/lib.rs:33-62 | Reports of zero or one level are safe. |
| Day02.BadStepIsUnsafe | day02/src/lib.rs:47-49 | One step outside 1..=3 in absolute value makes a report unsafe. |
| Day02.DirectionChangeIsUnsafe | day02/src/lib.rs:41-55 | A rise anywhere together with a fall anywhere makes a report unsafe. |
| Day02.SafeAfterRemovalFrom | day02/src/lib.rs:78-88 | The removal loop finds a safe report exactly when removing some index from the start index on gives one. |
| Day02.IsSafeDampened | day02/src/lib.rs:72-89 | Dampened safe exactly when safe, or safe after removing some single level. |
| Day02.SafeIsSafeDampened | day02/src/lib.rs:72-75 | A safe report is dampened safe. |
| Day02.CountSafeReports | day02/src/lib.rs:98-109 | The count is at most the number of reports. It equals that number exactly when every report is safe, and is 0 exactly when none is. |
| Day02.CountSafeReportsAppend | day02/src/lib.rs:98-109 | The count over two lists of reports is the sum of their counts, so each report counts once, on its own. |
| Day02.CountSafeReportsDampened | day02/src/lib.rs:111-119 | The same bounds for dampened safety: all reports exactly when every report is dampened safe, 0 exactly when none is. |
| Day02.CountSafeReportsDampenedAppend | day02/src/lib.rs:111-119 | The dampened count over two lists of reports is the sum of their counts, so each report counts once, on its own. |
| Day02.DampenedCountDominates | day02/src/lib.rs:98-119 | The dampened count is never below the plain count. |
| Day02.ExampleReports | day02/src/lib.rs:156-163 | "7 6 4 2 1" is safe and "1 3 2 4 5" is not. |
| Day02.ExampleReportText | day02/src/lib.rs:158 | The text "7 6 4 2 1" parses to the levels 7, 6, 4, 2, 1. |
| Day03.MulInstruction | day03/src/lib.rs:135-144 | Success means the text begins `mul(d1,d2)` for two non-empty digit runs. The result is `Mul` of their values, both `u64`, and the rest is what follows the `)`. |
| Day03.MulInstructionRoundTrip | day03/src/lib.rs:135-144 | `mul(a,b)` with `u64` arguments, followed by anything, parses as `Mul(a, b)` and leaves exactly what follows. |
| Day03.MulInstructionAccepts | day03/src/lib.rs:135-144 | Every `mul(d1,d2)` whose digit runs are worth at most `u64::MAX` is accepted, leading zeros included. It reads as `Mul` of the runs' values, with the rest after the `)`. |
| Day03.MulInstructionGrammar | day03/src/lib.rs:135-144 | `mul_instruction` accepts exactly the texts that begin `mul(d1,d2)` with two digit runs within `u64`. |
| Day03.ExampleLeadingZero | day03/src/lib.rs:135-144 | `mul(01,2)` reads as `Mul(1, 2)`, since nom's number parser accepts leading zeros. |
| Day03.DoInstruction | day03/src/lib.rs:146-150 | Succeeds exactly on input starting with `do()`, yields `Do` and leaves the rest after it. |
| Day03.DontInstruction | day03/src/lib.rs:152-156 | Succeeds exactly on input starting with `don't()`, yields `Dont` and leaves the rest after it. |
| Day03.AnyInstruction | day03/src/lib.rs:159 | The `alt` always consumes something when it succeeds. |
| Day03.AlternativesAreExclusive | day03/src/lib.rs:159 | No input matches two of the three instruction parsers, so the order of `alt` does not matter. |
| Day03.AnyInstructionRoundTrip | day03/src/lib.rs:159 | Every instruction written out parses back to itself, leaving what follows. |
| Day03.ParseInstructions | day03/src/lib.rs:158-165 | Fails exactly when no position of the text starts a `mul`, `do()` or `don't()`. Otherwise it returns the instructions found, in order, and every `mul` has `u64` arguments. |
| Day03.ParseInstructionsShow | day03/src/lib.rs:158-165 | A non-empty program with `u64` arguments, written out, parses back to itself. |
| Day03.Scan | day03/src/lib.rs:158-165 | The `many1(many_till(anychar, ...))` scan. `Day03.ScanShowProgram`, `Day03.ScanSkipsNoise` and `Day03.ScanFindsNothing` state what it finds. |
| Day03.ScanFindsNothing | day03/src/lib.rs:158-165 | The scan finds nothing exactly when no position of the text starts an instruction. |
| Day03.ScanFits | day03/src/lib.rs:135-144 | Every `mul` the scan finds has `u64` arguments. |
| Day03.ScanShowProgram | day03/src/lib.rs:158-165 | A program written out instruction after instruction scans back to the same program, in order. |
| Day03.ScanSkipsNoise | day03/src/lib.rs:162 | Characters that cannot start an instruction are skipped without effect. |
| Day03.Execute | day03/src/lib.rs:66-72 | `Mul(a, b)` gives the product `a * b`. `Do` gives the enabling result and `Dont` the disabling one. |
| Day03.SumMults | day03/src/lib.rs:81-92 | `sum_mults`. `Day03.SumMultsAppend` states its value. |
| Day03.SumMultsAppend | day03/src/lib.rs:81-92 | The plain sum over a program split in two is the sum of the two sums: every `Mul` counts once, and `do`/`don't` add nothing. |
| Day03.SumMultsConditional | day03/src/lib.rs:94-110 | `sum_mults2`. `Day03.SumMultsConditionalMeaning` states its value. |
| Day03.SumMultsConditionalMeaning | day03/src/lib.rs:94-110 | The conditional sum adds exactly the products whose last preceding switch is not `don't()`. With no switch before it, a product counts. |
| Day03.NoDontSumsAgree | day03/src/lib.rs:94-110 | Without `don't()` the conditional sum equals the plain sum. |
| Day03.ConditionalSumAtMostFullSum | day03/src/lib.rs:94-110 | The conditional sum never exceeds the plain sum. |
| Day03.ExampleMulParser | day03/src/lib.rs:183-190 | `mul(1,2)q` parses as `Mul(1, 2)` with rest `q`. |
| Day03.ExampleToggleParsers | day03/src/lib.rs:205-223 | `do()124` and `don't()124` parse as `Do` and `Dont` with rest `124`. |
| Day03.ExampleSums | day03/src/lib.rs:192-260 | The instruction lists the parse tests expect sum to 161 (plain) and 48 (conditional), the values the sum tests expect. |
| Day05.GroupRules | day05/src/lib.rs:208-218 | An id is a key exactly when it heads a rule, and `b` is in the set of `a` exactly when `a|b` is a rule. |
| Day05.AddRuleGroups | day05/src/lib.rs:212-215 | Inserting one more rule into the grouping of the earlier ones gives the grouping of them all. |
| Day05.RulesFromMeaning | day05/src/lib.rs:67-91 | An id gets a record exactly when it heads a rule. Its `less_than` holds the ids it must precede and its `greater_than` the ids that must precede it. |
| Day05.SingleOrderRule | day05/src/lib.rs:204-206 | A rule needs a leading digit and yields two `u32` ids. It consumes something. |
| Day05.RuleLine | day05/src/lib.rs:209 | The same for a rule followed by its line feed. |
| Day05.MoreRules | day05/src/lib.rs:209 | The `many1` loop collects only `u32` rules and never grows the text. |
| Day05.OrderRules | day05/src/lib.rs:208-209 | Succeeds exactly when the first rule line does, and then returns at least one rule. |
| Day05.RuleLineShow | day05/src/lib.rs:204-209 | A written rule and its line feed read back as that rule, leaving what follows. |
| Day05.OrderRulesShow | day05/src/lib.rs:208-209 | Written rule lines read back in order, stopping at the first text that does not start with a digit. |
| Day05.MorePages | day05/src/lib.rs:221 | The loop after the first page collects only `u32` ids. |
| Day05.UpdatePages | day05/src/lib.rs:220-224 | Succeeds exactly when the text starts with a `u32`, and returns at least one page. |
| Day05.MorePagesStep | day05/src/lib.rs:221 | A comma followed by a number adds that page. |
| Day05.MorePagesShow | day05/src/lib.rs:221 | Comma-separated pages read back, stopping at text that starts with neither comma nor digit. |
| Day05.UpdateLine | day05/src/lib.rs:227 | An update line has at least one `u32` page and starts with a digit. |
| Day05.UpdateLineShow | day05/src/lib.rs:220-227 | A written update line reads back as its pages, leaving what follows its line feed. |
| Day05.MoreUpdates | day05/src/lib.rs:227 | The loop collects only non-empty lists of `u32` ids. |
| Day05.MoreUpdatesBefore | day05/src/lib.rs:227 | Written update lines read back in order, up to where the loop stops. |
| Day05.Updates | day05/src/lib.rs:226-228 | Succeeds exactly when the first update line does, and then returns at least one non-empty list. |
| Day05.UpdatesShow | day05/src/lib.rs:226-228 | Written update lines read back in order. |
| Day05.UnterminatedLastUpdateDropped | day05/src/lib.rs:226-228 | A last update line without its line feed is dropped: `terminated` fails on it, and `many1` stops in front of it. |
| Day05.UnterminatedLineFails | day05/src/lib.rs:227 | An update line without a line feed is not an update line. |
| Day05.ParseRulesAndUpdates | day05/src/lib.rs:231-232 | Success means at least one rule and at least one update, none empty and every id a `u32`. |
| Day05.InputToUpdates | day05/src/lib.rs:230-255 | Exists exactly when the text parses. It has one update per page list, every update non-empty, and every page built from the rules. |
| Day05.InputToUpdatesShow | day05/src/lib.rs:204-255 | Rule lines, a blank line and update lines, as the puzzle writes them, read back to those rules and lists. So `input_to_updates` gives the pages `MakeUpdates` builds from them. |
| Day05.MakeUpdates | day05/src/lib.rs:234-255 | Each page keeps its id and carries the rule record of that id when there is one. |
| Day05.Cmp | day05/src/lib.rs:29-52 | `Ord for Page`. `Day05.CmpReflectsRules` states it in terms of the rules, and `Day05.CmpAntisymmetric` relates the two directions. |
| Day05.CmpReflectsRules | day05/src/lib.rs:29-52 | Pages compare `Less` when `x|y` is a rule, else `Greater` when `y|x` is, else `Equal`, whichever page holds the record. |
| Day05.CmpAntisymmetric | day05/src/lib.rs:29-52 | `Greater` one way is `Less` the other way. |
| Day05.EqualPagesCompareEqual | day05/src/lib.rs:14-18 | Pages equal by id compare `Equal`, unless a rule `x|x` orders a page before itself. |
| Day05.IsSorted | day05/src/lib.rs:100-102 | Sorted exactly when no adjacent pair compares `Greater`. |
| Day05.IsSortedMeansNoRuleBroken | day05/src/lib.rs:100-102 | An update is sorted exactly when no two neighbours are ordered against a rule. |
| Day05.MiddleNum | day05/src/lib.rs:104-107 | The id of the page with as many pages after it as before it, or one fewer after when the length is even. |
| Day05.InsertTail | day05/src/lib.rs:109-111 | `insert_tail` adds exactly the one page. The new page ends up last, or the old last page stays last. |
| Day05.InsertKeepsSorted | day05/src/lib.rs:109-111 | Inserting at the tail of a sorted update keeps it sorted, provided no page compares `Greater` than the new one without the new one comparing `Less` back. |
| Day05.Sort | day05/src/lib.rs:109-111 | `insertion_sort_shift_left`, which `sort_unstable` runs on up to 20 elements. The result is a permutation of the update. |
| Day05.SortSorts | day05/src/lib.rs:109-111 | With a comparator whose `Greater` is always answered by `Less` the other way, the result is sorted. |
| Day05.UpdatesAreAntisymmetric | day05/src/lib.rs:29-52 | Pages built from the rules have such a comparator. |
| Day05.SortedUpdateBreaksNoRule | day05/src/lib.rs:134-137 | Every parsed update, once sorted, is sorted. |
| Day05.SortKeepsSorted | day05/src/lib.rs:109-111 | With a comparator whose `Less` is always answered by `Greater` the other way, an already sorted update is left as it is. |
| Day05.NoMutualRulesReversesLess | day05/src/lib.rs:29-52 | For pages built from rules that never order a pair both ways (`x|x` included), `Less` one way is `Greater` the other way. |
| Day05.MutualRulesReorderSortedUpdate | day05/src/lib.rs:109-111 | When `a` and `b` each compare `Less` than the other, `[a, b]` counts as sorted, yet sorting moves `b` in front. |
| Day05.ExampleUnorderedPair | day05/src/lib.rs:109-111 | With rules `1|2` and `2|3` and no rule between 1 and 3, the update `3,2,1` is not sorted and sorts to `2,3,1`, middle page 3, as the insertion sort leaves it. |
| Day05.SortedArrangementUnique | day05/src/lib.rs:109-111 | When the rules order the pages of an update strictly and totally, two sorted permutations of it are equal. |
| Day05.AnySortAgrees | day05/src/lib.rs:109-138 | Under such an order, every sort that returns a sorted permutation returns what `Day05.Sort` returns. The middle pages therefore do not depend on which algorithm `sort_unstable` picks. |
| Day05.SumMiddleSorted | day05/src/lib.rs:121-126 | The sum is 0 when no update is sorted. `Day05.SumMiddleSortedOne` and `Day05.SumMiddleSortedAppend` fix it on every list: the middle pages of exactly the updates already sorted. |
| Day05.SumMiddleSortedOne | day05/src/lib.rs:121-126 | A single update contributes its middle page exactly when it is already sorted, and nothing otherwise. |
| Day05.SumMiddleSortedAppend | day05/src/lib.rs:121-126 | The sorted sum adds over concatenated lists of updates, so each update counts on its own. |
| Day05.SumMiddleUnsorted | day05/src/lib.rs:128-138 | The sum is 0 when every update is sorted. `Day05.SumMiddleUnsortedOne` and `Day05.SumMiddleUnsortedAppend` fix it on every list: the middle pages, after sorting, of exactly the updates not yet sorted. |
| Day05.SumMiddleUnsortedOne | day05/src/lib.rs:128-138 | A single update contributes its middle page after sorting exactly when it is not already sorted, and nothing otherwise. |
| Day05.SumMiddleUnsortedAppend | day05/src/lib.rs:128-138 | The unsorted sum adds over concatenated lists of updates, so each update counts on its own. |
| Day05.SumsPartitionUpdates | day05/src/lib.rs:120-138 | The two sums split the updates between them. Together they add the middle page of every update after sorting, each update counted once, when no update has two pages ordered against each other both ways. |
| Day06.DirectionFromGlyph | day06/src/lib.rs:21-29 | Accepts exactly `^ > v <`, and the direction read shows as that glyph. |
| Day06.GlyphRoundTrip | day06/src/lib.rs:21-29 | Every direction reads back from its glyph. |
| Day06.TurnRight | day06/src/lib.rs:50-57 | A right turn always changes the heading. |
| Day06.FourTurnsRestore | day06/src/lib.rs:50-57 | Four right turns restore the heading, and no fewer do. |
| Day06.NearestIsUnique | day06/src/lib.rs:131-144 | Two obstacles ahead at the same distance are the same cell, so the tie-breaking of `min_by_key` and `max_by_key` does not matter. |
| Day06.CastRay | day06/src/lib.rs:127-147 | Finds an obstacle exactly when one lies strictly ahead on the guard's column (north, south) or row (east, west). The one found is among the obstacles, is ahead, and is nearest. |
| Day06.CrossedCells | day06/src/lib.rs:68-107 | The recorded ranges hold exactly the cells strictly past the old position up to and including the new one. There are as many of them as steps walked. |
| Day06.MoveTo | day06/src/lib.rs:59-119 | On a hit the guard ends right in front of the obstacle, heading unchanged. The recorded set grows by exactly the cells crossed, and the distance by their number. |
| Day06.MissPosition | day06/src/lib.rs:62-110 | On a miss, east and south moves end at `x == width` and `y == height`, outside the grid. North and west moves end at 0. |
| Day06.BlockedMoveChangesNothing | day06/src/lib.rs:59-119 | With the obstacle right in front, position, recorded cells and distance stay the same. |
| Day06.Patrol | day06/src/lib.rs:155-165 | Reports a hit exactly when some obstacle lies ahead. On a hit it stops in front of the nearest obstacle ahead and turns right. On a miss it keeps its heading and ends at the edge of the grid. It records exactly the cells it crossed and adds their number to the distance. |
| Day06.BlockedPatrolOnlyTurns | day06/src/lib.rs:155-165 | An obstacle right in front only turns the guard. |
| Day06.StepPatrol | day06/src/lib.rs:200-202 | Only the guard moves. It reports a hit exactly when an obstacle lies ahead. On a hit it stops in front of the nearest obstacle ahead and turns right. On a miss it keeps its heading and ends at the edge of the grid. It records exactly the cells it crossed and adds their number to the distance. |
| Day06.StepPatrolGrows | day06/src/lib.rs:200-202 | A move keeps the grid and only adds recorded cells and distance. |
| Day06.StepPatrolStaysBounded | day06/src/lib.rs:59-119 | With obstacles in the grid, the guard and every recorded cell stay within the grid plus the row and column just past it. |
| Day06.PatrolUntilMiss | day06/src/lib.rs:321 | When the loop ends, the grid is unchanged, nothing recorded is lost, and everything is still within the bound. |
| Day06.DistinctPatrolPositionCount | day06/src/lib.rs:320-323 | The count as written. `Day06.CountsDiffer` relates it to the grid cells the guard stood on: it subtracts 1 whatever was recorded, misses the start cell when the guard never returns to it, and includes recorded cells off the grid. It is an underflow error when nothing was recorded, and out of fuel when the patrol does not end. |
| Day06.FromStr | day06/src/lib.rs:208-247 | The error is "Could not locate guard". The height is the number of lines of the trimmed input, and the guard starts with nothing recorded or walked. |
| Day06.FromStrFails | day06/src/lib.rs:235-237 | Parsing fails exactly when no line holds a guard glyph. |
| Day06.FromStrReads | day06/src/lib.rs:215-232 | The guard is the first glyph in reading order, facing the way it points. The obstacles are exactly the `#` cells, in reading order. |
| Day06.FromStrWidth | day06/src/lib.rs:217-219 | The width is the byte length of the first line of the trimmed input. |
| Day06.CellsInGrid | day06/src/lib.rs:320-323 | Keeps exactly the cells inside the grid. |
| Day06.CorrectedPositionCount | day06/src/lib.rs:320-323 | The intended count exists exactly when the patrol ends, and is at least 1 when the guard starts inside the grid. |
| Day06.CountsAgreeWhenStartRevisited | day06/src/lib.rs:320-323 | The two counts agree when the start cell was walked over again and exactly one recorded cell, the exit, lies outside the grid. |
| Day06.CountsDiffer | day06/src/lib.rs:320-323 | Holds for every finished patrol. The grid cells the guard stood on, plus the recorded cells off the grid, equal the recorded cells plus the start cell when it lies in the grid and was never recorded. When the count as written is defined, it plus 1 plus that missing start cell gives the same sum. |
| Day06.TwoRowsParse | day06/src/lib.rs:208-247 | `.` over `^` parses to a guard at (0, 1) heading north on a 1 by 2 grid without obstacles. |
| Day06.TwoRowsCountMissesStart | day06/src/lib.rs:320-323 | On that grid the count as written is 0, while the guard covered 2 cells. |
| Day06.LoneGuardParse | day06/src/lib.rs:208-247 | `^` parses to a guard at (0, 0) heading north on a 1 by 1 grid. |
| Day06.LoneGuardUnderflows | day06/src/lib.rs:320-323 | On that grid the count as written underflows, while the guard covered 1 cell. |
| Day07.NextOperator | day07/src/lib.rs:19-24 | `next` always changes the operator. |
| Day07.PrevOperator | day07/src/lib.rs:26-31 | `prev` always changes the operator. |
| Day07.NextPrevInverse | day07/src/lib.rs:19-31 | `next` and `prev` undo each other, and each is its own inverse. |
| Day07.NewPermutator | day07/src/lib.rs:72-80 | A new iterator holds `n` additions, has counted nothing, and may yield 2^n vectors. |
| Day07.UpdateNext | day07/src/lib.rs:82-85 | Flips exactly the operator at the index. |
| Day07.UpdatePrev | day07/src/lib.rs:87-90 | Flips exactly the operator at the index. |
| Day07.Advance | day07/src/lib.rs:104-139 | Yields a vector exactly while not fully mutated. The vector keeps its length and the count goes up by one. Once fully mutated, nothing changes. |
| Day07.Yields | day07/src/lib.rs:104-139 | The iterator yields as many vectors as it has left to count, each of the iterator's length. |
| Day07.NewPermutatorYields | day07/src/lib.rs:92-139 | A new iterator over `n` operators yields exactly 2^n vectors of length `n`, the first all additions. |
| Day07.PermutatorOfThree | day07/src/lib.rs:104-139 | Over three operators it yields `[Mul, Mul, Add]` twice and never `[Add, Mul, Mul]`. |
| Day07.AllOperatorVectors | day07/src/lib.rs:191-219 | The intended enumeration has 2^n vectors, each of length `n`. |
| Day07.AllOperatorVectorsComplete | day07/src/lib.rs:191-219 | Every operator vector of length `n` is enumerated. |
| Day07.AllOperatorVectorsDistinct | day07/src/lib.rs:191-219 | The enumerated vectors are pairwise distinct. |
| Day07.AllOperatorVectorsAt | day07/src/lib.rs:191-219 | Each vector sits at the index its binary reading gives. |
| Day07.EvaluateAllAdd | day07/src/lib.rs:165-174 | With only additions, the fold is the sum of the inputs. |
| Day07.Evaluate | day07/src/lib.rs:164-174 | The left-to-right fold. `Day07.FoldInputs` equates it with the source loop, and `Day07.EvaluateAllAdd` gives its value with additions only. |
| Day07.FoldInputs | day07/src/lib.rs:164-174 | The inner loop applies the operators strictly left to right, without precedence. |
| Day07.IsPossible | day07/src/lib.rs:159-182 | True exactly when some vector the iterator yields produces the expected result. |
| Day07.IsPossibleCorrected | day07/src/lib.rs:159-182 | True exactly when some operator vector of the right length produces the expected result. |
| Day07.PossibleAsWrittenIsPossible | day07/src/lib.rs:159-182 | Whatever the search as written finds, the intended one finds too. |
| Day07.SkippedVectorLosesSolution | day07/src/lib.rs:159-182 | `175: 2 3 5 7` is judged impossible as written. |
| Day07.CorrectedFindsSolution | day07/src/lib.rs:159-182 | `175: 2 3 5 7` is possible: `(2 + 3) * 5 * 7`. |
| Day07.ParseEquationWith | day07/src/lib.rs:232-244 | A parsed equation has at least one input and a `u64` target, and parsing consumes something. |
| Day07.EquationFromStr | day07/src/lib.rs:151-155 | `from_str` succeeds exactly when the equation parser does. The equation it returns has at least one input, and all its numbers are `u64` values. |
| Day07.EquationFromStrShow | day07/src/lib.rs:151-155 | An equation written out reads back through `from_str`, when what follows starts with neither a digit nor whitespace. |
| Day07.ParseInputs | day07/src/lib.rs:235 | `separated_list1(multispace1, u64)` gives at least one `u64` and consumes something. |
| Day07.ParseEquationShow | day07/src/lib.rs:232-244 | An equation written out and followed by a non-digit parses back, with the separator loop continuing into what follows. |
| Day07.ExampleEquation | day07/src/lib.rs:257-269 | `7290: 6 8 6 15` parses to `Equation{7290, [6, 8, 6, 15]}` with nothing left. |
| Day07.MultispaceJoinsNextLine | day07/src/lib.rs:232-236 | As written, a number at the start of the next line is taken as one more input. |
| Day07.ExampleTwoLines | day07/src/lib.rs:232-236 | `7290: 6 8 6 15` followed by `\n190: 10 19` parses as one equation with inputs `6 8 6 15 190`. |
| Day07.SpaceStopsAtLineEnd | day07/src/lib.rs:232-236 | With spaces only between inputs, an equation stops at the end of its line. |
| Day07.ExampleTwoLinesCorrected | day07/src/lib.rs:232-236 | The same text then parses as `7290: 6 8 6 15` with the next line left over. |
| Day07.EquationAtEndFails | day07/src/lib.rs:246-249 | An equation running to the very end of the text makes `all_equations` fail, because the `eof` separator consumes nothing. |
| Day07.AllEquations | day07/src/lib.rs:246-249 | `all_equations`. `Day07.AllEquationsShowLines` and `Day07.EquationAtEndFails` state what it reads. |
| Day07.MoreEquationsShowLines | day07/src/lib.rs:246-249 | The separator loop reads back every line-terminated equation. |
| Day07.AllEquationsShowLines | day07/src/lib.rs:246-249 | Equations written one per line, each ending in `\n`, parse back in order, leaving only the last line feed. |
| Day09.DigitValues | day09/src/lib.rs:46 | Only decimal digits count, each worth less than 10. An all-digit text gives one value per character, that character's value. |
| Day09.Layout | day09/src/lib.rs:46-60 | The number of blocks is the sum of the digits. |
| Day09.ScanDigitsLayout | day09/src/lib.rs:46-60 | The closure appends exactly the layout of the digits, file runs and free runs alternating. It fails only on a leading file of length 0, where `current_idx - 1` underflows. |
| Day09.FreeIndices | day09/src/lib.rs:62-67 | The queue holds every free index and nothing else, in ascending order. |
| Day09.FreeIndicesUnique | day09/src/lib.rs:62-67 | An ascending list of free indices that holds every free index is the queue. |
| Day09.FromStrMeaning | day09/src/lib.rs:39-74 | Parsing fails exactly when the first digit is 0. Otherwise the blocks are the layout, their number is the digit sum, the queue lists every free index in order, and no file block lies past `last_file_block`. |
| Day09.LastFileIndex | day09/src/lib.rs:84-91 | Finds the last non-free block, or reports that there is none. |
| Day09.FragmentLastFileBlock | day09/src/lib.rs:78-93 | A step keeps the block count and the indices in range. An empty queue changes nothing. |
| Day09.FragmentStepMeaning | day09/src/lib.rs:78-93 | The first queued index receives the block from `last_file_block`. That slot is freed and queued last, no other block changes, and `last_file_block` is then the last file block. |
| Day09.FragmentStepKeepsFiles | day09/src/lib.rs:80-81 | A step that fills a free slot permutes the blocks, so every file block is kept. |
| Day09.IsFragmented | day09/src/lib.rs:95-98 | Fragmented exactly when every queued index lies in `last_file_block + 1 .. len`. |
| Day09.FragmentResult | day09/src/lib.rs:100-104 | `fragment` stops only in a fragmented state, with the block count unchanged. |
| Day09.Fragment | day09/src/lib.rs:100-104 | `fragment` on fuel. `Day09.FragmentResult`, `Day09.CorrectedCompaction` and `Day09.ExampleCompaction` state where it ends. |
| Day09.CompactionStep | day09/src/lib.rs:78-104 | Under the compaction invariant, a step taken before the disk is fragmented succeeds and keeps the invariant. It lowers `last_file_block` and permutes the blocks. The invariant: `last_file_block` is the last file block, every free slot below it is queued, and the queued slots below it are free and ascending. |
| Day09.CompactionRun | day09/src/lib.rs:100-104 | From a correct start, the steps never panic. They reach a fragmented state within `last_file_block` steps, and that disk is compact and holds the same blocks. |
| Day09.FragmentFollowsRun | day09/src/lib.rs:100-104 | `fragment` with enough fuel ends where the run of steps ends. |
| Day09.RunCompacts | day09/src/lib.rs:100-104 | A run of steps that ends fragmented, compact and with the same blocks means `fragment`, given enough fuel, compacts the disk. |
| Day09.BlockStep | day09/src/lib.rs:78-93 | One step on a given disk: when the block at `last` is a file with only free blocks after it, the first queued slot receives it. `last` is freed and queued last, and `last_file_block` moves to the next file block. |
| Day09.ChecksumUpdate | day09/src/lib.rs:106-115 | The checksum is a sum of index × id over the blocks: replacing one block changes it by the difference of the two weights at that index. |
| Day09.Checksum | day09/src/lib.rs:106-115 | `checksum`. `Day09.ChecksumUpdate` states how it changes, and `Day09.ExampleCompaction` gives 1928 for the example. |
| Day09.FragmentStepChecksum | day09/src/lib.rs:78-115 | Moving file block `id` down from `last` to slot `f` lowers the checksum by `(last - f) * id`. |
| Day09.RenderSingleDigits | day09/src/lib.rs:25-34 | With single-digit ids, the rendering has one character per block: `.` for free blocks and the id's digit for file blocks. |
| Day09.RenderAppend | day09/src/lib.rs:25-34 | Rendering two lists of blocks one after the other gives the two renderings one after the other. |
| Day09.RenderBlocksOf | day09/src/lib.rs:25-34 | Text of dots and digits, read as blocks and rendered, is the same text. |
| Day09.FromStrCorrected | day09/src/lib.rs:39-74 | The corrected parse lays out the digits and queues every free index, as `from_str` does. When there is a file block, it points at the last one, with only free blocks after it. |
| Day09.FromStrAgreesWhenLastFileNonEmpty | day09/src/lib.rs:51-55 | When `last_file_block` as written is a file block, the source's parse equals the corrected one. |
| Day09.CorrectedCompaction | day09/src/lib.rs:100-104 | From the corrected start, any disk map with a file block (or none at all) compacts with as many steps as there are blocks, and keeps its blocks. |
| Day09.CorrectedRun | day09/src/lib.rs:100-104 | The run from the corrected start has no more steps than there are blocks. It ends fragmented and compact, and permutes the blocks. |
| Day09.TrailingEmptyFileBreaksCompaction | day09/src/lib.rs:51-55 | `11120` parses with `last_file_block` on a free block. Compaction then stops at `0.1..`, which is not compact, with checksum 2. |
| Day09.AsWrittenExampleFragment | day09/src/lib.rs:78-104 | The as-written run on that disk map, step by step. |
| Day09.TrailingEmptyFileCorrected | day09/src/lib.rs:100-104 | From the corrected start the same disk map compacts to `01...`, with checksum 1. |
| Day09.CorrectedExampleFragment | day09/src/lib.rs:78-104 | The corrected run on that disk map, step by step. |
| Day09.ExampleChecksums | day09/src/lib.rs:106-115 | `0.1..` has checksum 2 and is not compact; `01...` has checksum 1 and is. |
| Day09.ExampleParse | day09/src/lib.rs:161-165 | `2333133121414131402` parses and renders as `00...111...2...333.44.5555.6666.777.888899`, with `last_file_block` 41 and every free index queued in order. |
| Day09.ExampleFirstStep | day09/src/lib.rs:167-173 | One step on that disk renders as `009..111...2...333.44.5555.6666.777.88889.`. |
| Day09.ExampleCompaction | day09/src/lib.rs:175-182 | `fragment` on that disk, given at least 12 steps of fuel, succeeds. It renders as `0099811188827773336446555566..............` with checksum 1928. |

## Left out

- File and console I/O is not modelled. This covers every `load_input`, `Day09::save_output`, the `println!` calls of `part1`/`part2`, `get_input_path`, the clap command line, `main` and the `get_aoc_day` dispatch. The model starts from the input text.
- The day 6 grid renderer and `Display` for `Day06` (day06/src/lib.rs:250-317) are presentation only.
- Part 2 of days 6 and 9 is `todo!()` in the source (day06/src/lib.rs:340-342, day09/src/lib.rs:131-133).
- The regex-based `Instruction::parse_instructions` of day 3 (day03/src/lib.rs:13-18, 35-64) is unused and rests on an external regex engine.
- Integer widths are not modelled: the `u64` sums and products of days 3 and 7, `i64` differences in days 1 and 2, `u32` sums in day 5 and `u64` distances in day 6. These are unbounded integers here, so overflow panics and wrap-around are not modelled. The number parsers do reject values beyond 64 bits, as nom and `i64::from_str` do.
- `Sorting.Sort` and `Day05.Sort`: `sort_unstable` is modelled by the insertion sort it runs on up to 20 elements. For day 1 any sort of integers gives the same list, which `Sorting.SortedUnique` proves. Above 20 elements Rust switches to pattern-defeating quicksort (before Rust 1.81) or `ipnsort` (from 1.81). With a comparator that is not a total order, those may leave neighbours out of order, or panic in `ipnsort`. The model keeps the insertion sort at every length. When the rules order an update's pages strictly and totally, every sort that returns a sorted permutation agrees with it (`Day05.AnySortAgrees`).
- Day05.SortKeepsSorted: it requires that `Less` is always answered by `Greater` the other way. With two rules `a|b` and `b|a`, or a rule `x|x`, the insertion sort really does reorder an already sorted update (`Day05.MutualRulesReorderSortedUpdate`).
- Day05.SumsPartitionUpdates: it requires the same of every update, for the same reason.
- Test expectations that depend on input files absent from the sources are left out: day 6's 41, day 5's 143 and 123, day 2's count of 2, and day 7's `parse_all_equations`.
- Day09.ExampleCompaction: `fragment` loops until the disk is fragmented, and the model gives it fuel. The example is proved for every fuel of at least 12, the number of steps it takes.
- Day06.PatrolUntilMiss: the `while step_patrol()` loop runs on fuel. A guard walking in a cycle never stops in the source; with fuel it ends in `Err(OutOfFuel)`. Termination is not claimed.
- Day09.FragmentResult: `fragment` runs on fuel as well. `Day09.CorrectedCompaction` proves that as many steps as there are blocks suffice from a correct start.
- Day06.FromStrWidth: the width is the byte length of the first line, while column indices count characters. The two agree on ASCII grids (`Text.Utf8LengthOfAscii`); other grids are modelled as written.
- Day07.IsPossible: it requires at least one input. The source computes `inputs.len() - 1`, which underflows on an equation without inputs, and the parser never produces one.
- Day05.MiddleNum: it requires a non-empty update. The source would index out of bounds, and the parser never produces an empty update (`separated_list1`).
- Day06.MoveTo: it requires that a given obstacle lies ahead, which is what `cast_ray` passes it.
- Day01.ParseInput: a line that does not give two numbers panics in the source. The model returns `None`.
- Day09.FromStrMeaning: a leading `0` digit makes `current_idx - 1` underflow in the source, which panics. The model's parse returns `None`.
- Day09.FragmentLastFileBlock: the `unwrap` on a disk with no file block left is `None` in the model.
- Day03.ParseInstructions: the `unwrap` of `many1` on text without any instruction is `None` in the model.
- Day07.EquationFromStr: the `unwrap` is `None` in the model.
- Day07.AllEquationsShowLines: nom's `separated_list0` in `all_equations` is modelled as nom 7 behaves. After the last line ending, the next equation fails, so the list ends before that separator and one `\n` is left over. A text ending right after an equation fails altogether (`Day07.EquationAtEndFails`).
- Day05.SortSorts: the comparator is not a total order, so sortedness is proved for comparators whose `Greater` is always answered by `Less` the other way, as for pages built from rules (`Day05.UpdatesAreAntisymmetric`). Sortedness here means adjacent pairs, which is what `is_sorted` checks.
- Text.IsWhitespace follows the Unicode White_Space property that Rust's `char::is_whitespace` uses; no other Unicode processing is modelled.

## Findings

| source | as written | input that shows it | evidently intended | confidence | as-written member | corrected member |
|---|---|---|---|---|---|---|
| day06/src/lib.rs:41-48, 320-323 | `Guard::new` records no cell, and the recorded ranges exclude the start cell. Yet the count subtracts 1 whatever was recorded. | `.` over `^`: the guard covers both cells, and the count is 0. `^` alone: nothing is recorded and `len() - 1` underflows. | Count the grid cells the guard stood on, its start cell included. | not executed | Day06.DistinctPatrolPositionCount, Day06.TwoRowsCountMissesStart, Day06.LoneGuardUnderflows | Day06.CorrectedPositionCount, Day06.CountsDiffer, Day06.CountsAgreeWhenStartRevisited |
| day07/src/lib.rs:104-139 | The `OpPermutator` state machine revisits vectors. | `OpPermutator::new(3)` yields `[Mul, Mul, Add]` twice and never `[Add, Mul, Mul]`, so `175: 2 3 5 7`, which needs `(2 + 3) * 5 * 7`, is judged impossible. | Yield every operator vector once. `mutator_test` (day07/src/lib.rs:191-219) expects 8 distinct vectors, but at most 7 occur. | not executed | Day07.PermutatorOfThree, Day07.SkippedVectorLosesSolution | Day07.AllOperatorVectorsComplete, Day07.AllOperatorVectorsDistinct, Day07.IsPossibleCorrected, Day07.CorrectedFindsSolution |
| day07/src/lib.rs:232-236 | Inputs are separated by `multispace1`, which also matches line feeds. | `7290: 6 8 6 15\n190: 10 19` parses as one equation with inputs `6 8 6 15 190`. | Separate inputs by spaces only, so that each equation ends at its line. | not executed | Day07.MultispaceJoinsNextLine, Day07.ExampleTwoLines | Day07.SpaceStopsAtLineEnd, Day07.ExampleTwoLinesCorrected, Day07.AllEquationsShowLines |
| day09/src/lib.rs:51-55 | `last_file_block` is set to `current_idx - 1` after every file digit, even a file of length 0. After free space, that index is a free block. | `11120`: `last_file_block` is 4, a free block. Compaction moves a free block onto slot 1 and stops at `0.1..` with checksum 2. | Point `last_file_block` at the last file block, so compaction ends at `01...` with checksum 1. | not executed | Day09.TrailingEmptyFileBreaksCompaction, Day09.AsWrittenExampleFragment | Day09.FromStrCorrected, Day09.CorrectedCompaction, Day09.TrailingEmptyFileCorrected |
