# Advent of Code 2024, days 1–3: a Dafny model

This project models the PHP solutions to the first three puzzles of
Advent of Code 2024, and the two small libraries they are built on.

- **`Iterables`** (`iterables.dfy`) is the lazy-sequence library. It covers
  `map`, `filter`, `sort`, `reduce`, `sum`, `product`, `count`, `zip`,
  `unzip`, `reverse`, `chunkEvery`, `all`, `any`, `withIndex`, `removeAt`
  and `first`. Every iterable is a finite `seq`, and every generator is the
  sequence it would yield.
  - `reduce` is a left fold whose reducer is called as `(item, acc)`.
  - `chunkEvery` is modelled as its `foreach` loop, with both carry
    buffers `output` and `prevs`. It is then related to a reference
    sliding window.
- **`Strings`** (`strings.dfy`) is the tokeniser.
  - `split` is PHP `explode`, then `trim` of every part, then the
    `notEmpty` filter.
  - `join` is `implode`. `toInt` is the `(int)` cast on decimal strings.
  - `ParseRow` is the line parser that days 1 and 2 share.
- **`HistorianHysteria`** (`day01.dfy`) models day 1. `diff` sorts both
  columns and takes the distance of each rank. `similarity` weighs every
  left value by its multiplicity in the right column. The line → row →
  `unzip` pipeline is also modelled.
- **`RedNosedReport`** (`day02.dfy`) models day 2.
  - `safe1` orients a report, then looks for a bad adjacent pair.
  - `safe2` is the Problem Dampener: a report also passes when it passes
    with one level removed.
  - The two parts count the safe reports.
- **`MullItOver`** (`day03.dfy`) models day 3. `normalize` turns regex
  match records into `(value, enable, disable)` instructions. `mul1` adds
  up all values. `mul2` is the two-state enabled/disabled fold.
- **`Samples`** (`samples.dfy`) holds the six-item sum that the worked
  examples of days 1 and 3 share.
- **`Wrappers`** (`wrappers.dfy`) holds `Option`. It marks the cases where
  the PHP code throws.

Each operation has a partner property:
- `sort` is the unique sorted permutation.
- `implode` undoes `explode`.
- `unzip` and `zip` are mutual inverses.
- `reverse` is an involution.
- `chunkEvery` equals a reference window function when
  `step <= count <= 2 * step`.
- `safe1` is "gradual in one direction".
- `safe2` is "gradual, or gradual after one removal".
- `mul2` is the sum of the instructions enabled at their position.

## Model

| member | source | states |
|---|---|---|
| `Iterables.Map` | 2024/php/lib/Iterables.php:15-20 | one output per input, in order; output `i` is the mapper applied to input `i` |
| `Iterables.Filter` | 2024/php/lib/Iterables.php:22-29 | the result is an order-preserving subsequence of the input, no longer than it, and every item satisfies the predicate |
| `Iterables.FilterMultiset` | 2024/php/lib/Iterables.php:22-29 | an accepted value occurs in the result exactly as often as in the input; a rejected value does not occur at all |
| `Iterables.Sort` | 2024/php/lib/Iterables.php:31-36 | the result is ascending and a permutation (same multiset) of the input |
| `Iterables.SortedPermutationUnique` | 2024/php/lib/Iterables.php:31-36 | two ascending sequences with the same multiset are equal, so the sorted order is unique |
| `Iterables.SortIsUniqueSortedPermutation` | 2024/php/lib/Iterables.php:31-36 | any ascending permutation of the input is exactly what `sort` returns |
| `Iterables.SortPermutationInvariant` | 2024/php/lib/Iterables.php:31-36 | inputs that are permutations of each other sort to the same sequence |
| `Iterables.SortIdempotent` | 2024/php/lib/Iterables.php:31-36 | sorting an ascending sequence leaves it unchanged, so sorting twice equals sorting once |
| `Iterables.Reduce` | 2024/php/lib/Iterables.php:43-50 | no contract of its own; `ReduceAppend` and `ReduceSnoc` state that it folds left to right, calling the reducer as `(item, acc)` |
| `Iterables.ReduceAppend` | 2024/php/lib/Iterables.php:43-50 | the fold is left to right: reducing `a + b` is reducing `b` from the result of reducing `a` |
| `Iterables.ReduceSnoc` | 2024/php/lib/Iterables.php:43-50 | the last item is folded in last, as `reducer(item, acc)` |
| `Iterables.Sum` | 2024/php/lib/Iterables.php:38-41 | no contract of its own; `ReduceAddFrom`, `SumAppend`, `SumNonNegative` and `SumMonotone` state what it adds up |
| `Iterables.ReduceAddFrom` | 2024/php/lib/Iterables.php:38-41 | folding `$o + $v` from any accumulator adds the sum of the items to it |
| `Iterables.SumAppend` | 2024/php/lib/Iterables.php:38-41 | `sum([]) == 0`, `sum([x]) == x`, and sum distributes over concatenation |
| `Iterables.SumNonNegative` | 2024/php/lib/Iterables.php:38-41 | a sum of non-negative items is non-negative |
| `Iterables.SumMonotone` | 2024/php/lib/Iterables.php:38-41 | a sum grows when every item grows |
| `Iterables.Product` | 2024/php/lib/Iterables.php:166-169 | no contract of its own; `ReduceMulFrom` and `ProductAppend` state what it multiplies |
| `Iterables.ReduceMulFrom` | 2024/php/lib/Iterables.php:166-169 | folding `$v * $o` from any accumulator multiplies it by the product of the items |
| `Iterables.ProductAppend` | 2024/php/lib/Iterables.php:166-169 | `product([]) == 1`, `product([x]) == x`, and product distributes over concatenation |
| `Iterables.Count` | 2024/php/lib/Iterables.php:76-79 | no contract of its own; `CountFrom`, `CountIsFilterLength` and `CountEqualIsMultiplicity` state what it counts |
| `Iterables.CountFrom` | 2024/php/lib/Iterables.php:76-79 | the counting fold adds one per accepted item to its starting value |
| `Iterables.CountIsFilterLength` | 2024/php/lib/Iterables.php:76-79 | `count(s, p)` is the length of `filter(s, p)`, between 0 and `\|s\|` |
| `Iterables.CountMonotone` | 2024/php/lib/Iterables.php:76-79 | a predicate implied by another counts at least as many items |
| `Iterables.CountEqualIsMultiplicity` | 2024/php/lib/Iterables.php:76-79 | counting the items equal to `v` gives the multiplicity of `v` |
| `Iterables.Zip` | 2024/php/lib/Iterables.php:67-74 | stops at the shorter input (need-all iteration); pair `i` is `[a[i], b[i]]` |
| `Iterables.UnzipFrom` | 2024/php/lib/Iterables.php:52-60 | folding the rows appends their entries 0 and 1, in order, to the two lists carried |
| `Iterables.Unzip` | 2024/php/lib/Iterables.php:52-60 | two lists as long as the input, holding entry 0 and entry 1 of every row, in order |
| `Iterables.UnzipZip` | 2024/php/lib/Iterables.php:52-74 | unzipping a zip gives back both inputs cut to the shorter length |
| `Iterables.ZipUnzip` | 2024/php/lib/Iterables.php:52-74 | zipping the unzipped pairs gives back the pairs |
| `Iterables.Reverse` | 2024/php/lib/Iterables.php:81-87 | same length; item `i` of the result is item `\|s\|-1-i` of the input |
| `Iterables.ReverseInvolution` | 2024/php/lib/Iterables.php:81-87 | reversing twice gives back the input |
| `Iterables.ChunkLoop` | 2024/php/lib/Iterables.php:110-125 | the loop with its `output`/`prevs` buffers only ever yields chunks of exactly `count` items |
| `Iterables.ChunkEvery` | 2024/php/lib/Iterables.php:106-126 | every chunk has exactly `count` items, so a trailing partial window is dropped |
| `Iterables.ChunkLoopWindows` | 2024/php/lib/Iterables.php:110-125 | for `step <= count <= 2*step`, from any state in which `prevs` holds the part of `output` past `step`, the loop yields the reference windows of `output` followed by the rest |
| `Iterables.ChunkEveryIsSlidingWindow` | 2024/php/lib/Iterables.php:106-126 | for `step <= count <= 2*step`, `chunkEvery` is the sliding window: one window at every multiple of `step`, the partial tail dropped |
| `Iterables.ChunkEveryPairs` | 2024/php/lib/Iterables.php:106-126 | with `(2, 1)` there are `max(\|s\|-1, 0)` chunks, and chunk `i` is `[s[i], s[i+1]]` |
| `Iterables.WindowsPairs` | 2024/php/lib/Iterables.php:106-126 | the reference window with `(2, 1)` has the same adjacent-pairs shape |
| `Iterables.ChunkEveryLongWindowSkips` | 2024/php/lib/Iterables.php:106-126 | with `(3, 1)` five items give only two chunks, `[a,b,c]` and `[b,c,d]`, not the three of a sliding window |
| `Iterables.ChunkEveryLongStepDoesNotSkip` | 2024/php/lib/Iterables.php:106-126 | with `(2, 3)` no item is skipped: `[a,b,c,d]` gives `[a,b]` and `[c,d]` |
| `Iterables.All` | 2024/php/lib/Iterables.php:128-137 | true exactly when every item satisfies the predicate (so true on empty input) |
| `Iterables.Any` | 2024/php/lib/Iterables.php:139-148 | true exactly when some item satisfies the predicate (so false on empty input) |
| `Iterables.AnyIsNotAllNot` | 2024/php/lib/Iterables.php:128-148 | `any(s, p) == !all(s, not p)` and `all(s, p) == !any(s, not p)` |
| `Iterables.AllScan` | 2024/php/lib/Iterables.php:128-137 | the loop returns `all`, and stops right after the first failing item; when all pass it visits every item |
| `Iterables.AnyScan` | 2024/php/lib/Iterables.php:139-148 | the loop returns `any`, and stops right after the first passing item; when none passes it visits every item |
| `Iterables.WithIndex` | 2024/php/lib/Iterables.php:150-157 | entry `k` is `(k, s[k])`, for every position and nothing else |
| `Iterables.RemoveAt` | 2024/php/lib/Iterables.php:159-164 | an index in range removes exactly that item and shifts the rest down; any other index returns the input unchanged |
| `Iterables.RemoveAtMultiset` | 2024/php/lib/Iterables.php:159-164 | the removed item plus the remaining items are the original multiset |
| `Iterables.First` | 2024/php/lib/Iterables.php:171-178 | the first item, or `None` (PHP throws) exactly when the input is empty |
| `Strings.Explode` | 2024/php/lib/Strings.php:15-17 | there is always at least one part; `ExplodeImplode`, `ExplodeNoSeparator` and `ExplodeAtFirst` state where it cuts |
| `Strings.Implode` | 2024/php/lib/Strings.php:39-42 | no contract of its own; `ExplodeImplode` states that it undoes `Explode` |
| `Strings.ExplodeImplode` | 2024/php/lib/Strings.php:15-17 | `implode` undoes `explode`, and there is one more part than occurrences of the separator |
| `Strings.ExplodeNoSeparator` | 2024/php/lib/Strings.php:15-17 | a text without the separator character explodes to itself alone |
| `Strings.ExplodeAtFirst` | 2024/php/lib/Strings.php:15-17 | exploding cuts at the first occurrence, scanning left to right |
| `Strings.Trim` | 2024/php/lib/Strings.php:18-20 | the result has no whitespace at either end, and sits in the input with only whitespace around it; it is empty exactly when the input is all whitespace; an already trimmed input is unchanged |
| `Strings.TrimEmpty` | 2024/php/lib/Strings.php:18-20 | the trim of `TrimLeft` then `TrimRight` is empty exactly when the text is all whitespace |
| `Strings.NotEmpty` | 2024/php/lib/Strings.php:34-37 | only a non-empty string can pass, `"0"` fails (PHP's `empty("0")`), and every string of two or more characters passes |
| `Strings.Split` | 2024/php/lib/Strings.php:15-27 | the tokens keep text order: they are a subsequence of the (trimmed) explode result; without the empty filter there is one token per part (what the filter keeps is stated by `SplitKeepsNonEmpty`) |
| `Strings.SplitKeepsNonEmpty` | 2024/php/lib/Strings.php:15-27 | with `noEmpty`, every token other than `""` and `"0"` occurs in the result exactly as often as among the (trimmed) parts, and `""` and `"0"` do not occur |
| `Strings.SplitColumns` | 2024/php/lib/Strings.php:15-27 | three digit strings (none exactly `"0"`) separated by three spaces, as on a day 1 line `3   4`, split on a space with `trim` into exactly those three strings, in order |
| `Strings.SplitDropsEmpty` | 2024/php/lib/Strings.php:22-24 | with `noEmpty`, no token is `""` and no token is `"0"` |
| `Strings.SplitTrims` | 2024/php/lib/Strings.php:18-24 | with `trim`, no token starts or ends with whitespace; with `noEmpty` as well, trimming comes first, so no token is whitespace only |
| `Strings.SplitJoinRoundTrip` | 2024/php/lib/Strings.php:15-42 | with neither `trim` nor `noEmpty`, `join(split(t, sep), sep) == t`, and the number of parts is the number of separators plus one |
| `Strings.Join` | 2024/php/lib/Strings.php:39-42 | no contract of its own; `SplitJoinRoundTrip` and `JoinDefaultSeparator` state it |
| `Strings.JoinDefaultSeparator` | 2024/php/lib/Strings.php:39-42 | with the default `""` separator, `join` is plain concatenation, and one value joins to itself |
| `Strings.ToInt` | 2024/php/lib/Strings.php:29-32 | a digit string casts to a non-negative number, a string with a leading `-` to a non-positive one |
| `Strings.ToIntOfIntToString` | 2024/php/lib/Strings.php:29-32 | casting the decimal spelling of an integer gives back that integer: within PHP's 64-bit range, or for every integer with unbounded ints as modelled |
| `Strings.ToIntLeadingZero` | 2024/php/lib/Strings.php:29-32 | spellings that are not canonical cast as PHP's `(int)` does: a leading zero is ignored, with or without a `-` sign, and `"-0"` is 0 |
| `Strings.ParseRow` | 2024/php/day01.php:34-36 | one integer per token of the line split on spaces with trimming and the empty filter, in order |
| `Strings.ParseLines` | 2024/php/day02.php:44-52 | one parsed row per line, in order |
| `HistorianHysteria.PairDistance` | 2024/php/day01.php:15 | the distance of a pair is non-negative and is one of the two differences, so it is their absolute value |
| `HistorianHysteria.Diff` | 2024/php/day01.php:7-17 | `min(\|l1\|, \|l2\|)` distances, all non-negative |
| `HistorianHysteria.DiffPairsRanks` | 2024/php/day01.php:7-17 | distance `i` is the pair distance (the absolute difference) of the `i`-th smallest values of the two columns |
| `HistorianHysteria.DiffOrderIndependent` | 2024/php/day01.php:9-11 | reordering either column changes neither the distances nor their sum |
| `HistorianHysteria.DiffZeroOnPermutation` | 2024/php/day01.php:7-17 | when the columns are permutations of each other, every distance is 0, and so is the total |
| `HistorianHysteria.Score` | 2024/php/day01.php:25 | no contract of its own; `SimilarityIsMultiplicity` states that a score is the value times its multiplicity in the right column |
| `HistorianHysteria.Similarity` | 2024/php/day01.php:19-27 | one score per left value |
| `HistorianHysteria.SimilarityIsMultiplicity` | 2024/php/day01.php:19-27 | score `i` is the left value times its number of occurrences in the right column, so 0 when it does not occur |
| `HistorianHysteria.ExampleDiff` | 2024/php/day01.php:40-43 | the puzzle's example columns give a total distance of 11 |
| `HistorianHysteria.ExampleSimilarity` | 2024/php/day01.php:46-49 | the puzzle's example columns give a similarity of 31 |
| `HistorianHysteria.ExampleSortedLeft` | 2024/php/day01.php:10-11 | the left example column sorts to `1 2 3 3 3 4` |
| `HistorianHysteria.ExampleSortedRight` | 2024/php/day01.php:10-11 | the right example column sorts to `3 3 3 4 5 9` |
| `HistorianHysteria.Columns` | 2024/php/day01.php:30-38 | two columns, each with one entry per line |
| `HistorianHysteria.ColumnsAreLineEntries` | 2024/php/day01.php:30-38 | entry `i` of the columns is the first and the second number on line `i` |
| `HistorianHysteria.Part1` | 2024/php/day01.php:40-43 | the total distance is non-negative |
| `HistorianHysteria.Part2` | 2024/php/day01.php:46-49 | no contract of its own; `SimilarityIsMultiplicity` and `ColumnsAreLineEntries` state what it adds up |
| `RedNosedReport.BadStep` | 2024/php/day02.php:20 | no contract of its own; `NoBadStepIsDecreasing` states that no bad pair means every step falls by 1 to 3 |
| `RedNosedReport.Oriented` | 2024/php/day02.php:9-12 | no contract of its own; `Safe1IsGradual` and `Safe1RejectsEqualStart` state the effect of the reversal |
| `RedNosedReport.Safe1` | 2024/php/day02.php:7-22 | no contract of its own; `Safe1IsGradual` states that it is "gradual in one direction" |
| `RedNosedReport.NoBadStepIsDecreasing` | 2024/php/day02.php:14-21 | no adjacent pair is bad exactly when every step falls by 1 to 3 |
| `RedNosedReport.DecreasingReverse` | 2024/php/day02.php:10-12 | a reversed report falls gently exactly when the report rises gently |
| `RedNosedReport.Safe1IsGradual` | 2024/php/day02.php:7-22 | `safe1` holds exactly when every step rises by 1 to 3, or every step falls by 1 to 3 |
| `RedNosedReport.Safe1Reverse` | 2024/php/day02.php:7-22 | reading a report backwards does not change `safe1` |
| `RedNosedReport.Safe1RejectsEqualStart` | 2024/php/day02.php:9-20 | equal first two levels make a report unsafe: nothing is reversed and the first pair has difference 0 |
| `RedNosedReport.Safe1Short` | 2024/php/day02.php:9-12 | a report of fewer than two levels passes, as there are no pairs |
| `RedNosedReport.Removals` | 2024/php/day02.php:30-39 | one candidate per level; candidate `i` is the report without level `i` |
| `RedNosedReport.Safe2` | 2024/php/day02.php:24-41 | no contract of its own; `Safe2IsDampenedGradual` states the dampener rule |
| `RedNosedReport.Safe2IsDampenedGradual` | 2024/php/day02.php:24-41 | `safe2` holds exactly when the report, or the report with some single level removed, is gradual; `safe1` implies `safe2` |
| `RedNosedReport.Safe2Short` | 2024/php/day02.php:24-41 | a report of one or two levels passes the dampened check |
| `RedNosedReport.GradualDropEnds` | 2024/php/day02.php:30-39 | removing the first or the last level keeps a gradual report gradual |
| `RedNosedReport.ExampleSafe` | 2024/php/day02.php:7-22 | the example reports `7 6 4 2 1` and `1 3 6 7 9` are safe |
| `RedNosedReport.ExampleJumpUp` | 2024/php/day02.php:7-41 | the example report `1 2 7 8 9` is unsafe with and without the dampener |
| `RedNosedReport.ExampleDampenedTurn` | 2024/php/day02.php:7-41 | the example report `1 3 2 4 5` fails `safe1` but passes `safe2` |
| `RedNosedReport.ExampleDampenedRepeat` | 2024/php/day02.php:7-41 | the example report `8 6 4 4 1` fails `safe1` but passes `safe2` |
| `RedNosedReport.Part1` | 2024/php/day02.php:54-58 | the number of safe reports is between 0 and the number of lines |
| `RedNosedReport.Part2` | 2024/php/day02.php:61-65 | the number of reports safe with the dampener is between 0 and the number of lines |
| `RedNosedReport.PartsBounded` | 2024/php/day02.php:54-66 | part 1 counts the gradual reports, and `0 <= part1 <= part2 <= number of reports` |
| `MullItOver.NormalizeRecord` | 2024/php/day03.php:12-33 | a 2-entry record becomes `[product, null, null]`, a 3-entry one (`do`) `[0, true, null]`, a 4-entry one (`don't`) `[0, null, true]`; any other length has no arm (`None`) |
| `MullItOver.Normalize` | 2024/php/day03.php:7-36 | succeeds exactly when every record has 2 to 4 entries, and then maps record `i` to instruction `i` |
| `MullItOver.SplitMulPair` | 2024/php/day03.php:16 | splitting `"X,Y"` on `,` keeps `X` and `Y` in order, except a token that is exactly `"0"` |
| `MullItOver.MulValue` | 2024/php/day03.php:13-19 | no contract of its own; `MulValueOfPair` and `MulValueIsProduct` state what it computes |
| `MullItOver.MulValueOfPair` | 2024/php/day03.php:13-22 | the value of `mul(X,Y)` is the product of the factors of `X` and `Y`, where a `"0"` factor counts as 1 |
| `MullItOver.MulValueIsProduct` | 2024/php/day03.php:13-22 | when neither token is exactly `"0"`, the value of `mul(X,Y)` is `X*Y`; it is never negative |
| `MullItOver.MulZeroQuirk` | 2024/php/day03.php:13-22 | because `split` drops `"0"`, `mul(0,Y)` is worth `Y` and `mul(0,0)` is worth 1 |
| `MullItOver.MulPairValue` | 2024/php/day03.php:10-22 | the arguments of any `mul` the pattern matches cast cleanly, to a non-negative value |
| `MullItOver.NormalizeScanned` | 2024/php/day03.php:7-36 | records of the three shapes the pattern produces always normalize, to instructions that have a non-negative value, are never both `do` and `don't`, and carry a value only when they are a `mul` |
| `MullItOver.Mul1` | 2024/php/day03.php:38-46 | no contract of its own; `Mul1Snoc` and `Mul1CountsMuls` state what it adds up |
| `MullItOver.Mul1Snoc` | 2024/php/day03.php:38-46 | `mul1` of nothing is 0, and each instruction adds its first component |
| `MullItOver.Mul1CountsMuls` | 2024/php/day03.php:38-46 | `mul1` is the sum over the `mul` instructions only (`do`/`don't` add 0), and is non-negative |
| `MullItOver.Mul2Step` | 2024/php/day03.php:54-70 | no contract of its own; `Mul2StepMonotone` bounds one step and `Mul2Carry` states the carry it keeps |
| `MullItOver.Mul2` | 2024/php/day03.php:48-73 | no contract of its own; `Mul2IsEnabledSum` states that it is the sum of the enabled `mul` values |
| `MullItOver.Mul2StepMonotone` | 2024/php/day03.php:54-70 | one step of the fold never lowers the accumulator, and raises it by at most the instruction's value |
| `MullItOver.EnabledBeforeSnoc` | 2024/php/day03.php:48-73 | appending an instruction does not change whether earlier positions are enabled, and the position after the end is enabled exactly when the carry says so |
| `MullItOver.Mul2Carry` | 2024/php/day03.php:48-73 | the fold from `[0, true]` carries the sum of the enabled `mul` values and whether the last switch was a `do` (or there was none) |
| `MullItOver.Mul2IsEnabledSum` | 2024/php/day03.php:48-73 | `mul2` is the sum of the values of the `mul` instructions not preceded by a `don't` without a later `do` |
| `MullItOver.Mul2WithoutDont` | 2024/php/day03.php:48-73 | with no `don't` in the stream, `mul2 == mul1` |
| `MullItOver.Mul2Bounds` | 2024/php/day03.php:48-73 | `0 <= mul2 <= mul1` |
| `MullItOver.Mul2PrefixMonotone` | 2024/php/day03.php:48-73 | `mul2` of a longer prefix is at least `mul2` of a shorter one: the accumulator never decreases |
| `MullItOver.ExampleTotals` | 2024/php/day03.php:76-95 | the puzzle's example instructions give `mul1 = 161` and `mul2 = 48` |
| `MullItOver.Part1` | 2024/php/day03.php:81-87 | part 1 has a value exactly when `normalize` succeeds |
| `MullItOver.Part2` | 2024/php/day03.php:89-95 | part 2 has a value exactly when `normalize` succeeds |
| `MullItOver.PartsBounded` | 2024/php/day03.php:81-95 | on records the pattern produces, both parts have a value, and `0 <= part2 <= part1` |

## Left out

- Reading the input (`Reader`), `echo` output and CLI exit behaviour: each
  day's pipeline is a function of the lines, or of the match records.
- `Debug` is left out: its only effect is `var_dump`.
- `Regex::scan`, which wraps PCRE's `preg_match_all`, is left out. The match
  records are an input to day 3's parts, as lists of strings.
  `MullItOver.ScannedRecord` describes the three shapes the pattern
  produces. `scan` throws when nothing matches; that case is not modelled.
- The `Strings::join` of the lines in day 3 is not modelled, because the
  records are already given.
- Laziness, single consumption of generators, `collect`, and the type
  dispatch of `toIterator`/`MultipleIterator`: every iterable is a finite
  `seq`, and `collect` is the identity.
- `sum` and `product` promote to float on overflow. The model uses
  unbounded `int`.
- `count` with its default `null` predicate would call `null`, so the model
  always takes a predicate.
- `Strings.ToInt`: PHP's `(int)` cast saturates at `PHP_INT_MAX` and
  `PHP_INT_MIN`, and the model's cast does not; it uses unbounded `int`.
  The same goes for the arithmetic that turns into a float on overflow in
  PHP: `abs($values[0] - $values[1])` (`day01.php` line 15),
  `$value * count` (line 25) and `$acc + $x` (`day03.php` line 66).
  `ToIntOfIntToString` holds for PHP only within the 64-bit range.
- `toInt` on strings that are not decimal (PHP's permissive `(int)` cast)
  is not modelled. `Strings.ToInt` requires an optional `-` followed by
  digits.
- PHP's `explode` with an empty separator throws. `Strings.Explode`
  requires a non-empty separator.
- `Iterables.Unzip` requires rows of at least two entries. PHP would read
  `null` with a warning for a shorter row.
- `HistorianHysteria.Columns` requires every line to hold at least two
  numbers, for the same reason.
- `RedNosedReport.Safe1IsGradual` treats a report of fewer than two levels
  as vacuously safe. PHP reads `null` for a missing level, with a warning,
  and never reverses such a report.
- `MullItOver.NormalizeRecord` returns `None` for a record length with no
  arm. PHP throws `UnhandledMatchError`.
- `MullItOver.Part1` and `MullItOver.Part2` state only when they have a
  value. What the values are is stated by `Mul1CountsMuls` and
  `Mul2IsEnabledSum`.
- `HistorianHysteria.Part2` has no contract of its own.
  `SimilarityIsMultiplicity` and `ColumnsAreLineEntries` state what it adds
  up.
