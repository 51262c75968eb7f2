# Badge utility: coverage percentage and badge colour

A Dafny model of `BadgeUtility`, the helper class of a Maven plugin that turns
a JaCoCo CSV coverage report into a coverage badge. Two of its operations are
modelled and proved:

- **`calculateCoverage`** skips the header record of the report. For each
  data record it adds column 3 (instructions missed) and column 4
  (instructions covered) to two accumulators, using `Integer.parseInt`. A
  `null` or empty cell adds nothing. It then returns
  `(int) Math.floor(covered / (covered + missed) * 100)`. A cell that is not a
  valid `int` makes it throw `NumberFormatException`.
- **`getColorFromRange`** maps a percentage to one of six badge colours through
  an if/else chain over the bands [0,40), [40,50), [50,60), [60,70) and
  [70,80). Everything else, including negative input and 100, is bright green.

Files:

- `wrappers.dfy`: `Option` (where `None` plays Java's `null`) and `Result`
  (where `Failure` plays a thrown exception).
- `java_lang.dfy`: the Java behaviour the class relies on. This covers the
  `int` range, `Integer.parseInt` and its inverse `Integer.toString`, and
  the narrowing of a floating-point value to `int` (section 5.1.3 of the Java Language Specification).
- `badge_utility.dfy`: the report records, the aggregation loop as the
  method `CalculateCoverage`, and the functions that specify it:
  - `Tally` folds over the rows exactly as the loop does, and the first
    failing cell wins.
  - `SumColumn` is the reference "sum of column k".
  - `CoveragePercent` computes the percentage.
  - The colour classification is `ColorFromRange`.

Behaviour the model follows from the code:

- With no instructions at all, the source computes 0 / 0. That is NaN, and
  Java's `(int)` cast turns NaN into 0, so the result is 0 and no error is
  raised.
- `Integer.parseInt` also accepts negative numbers. So a zero total can occur
  with a non-zero covered count. The division then yields an infinity, and
  the cast clamps it to `Integer.MAX_VALUE` or `Integer.MIN_VALUE`.
  `CoveragePercent` models this.
- The range table in the documentation of `getColorFromRange` ends with
  [80, 100). The code has a catch-all `else` instead.
  `ColorMatchesDocumentedTable` proves that the two agree on [0, 100). It
  also proves that outside that range the table has no row and the code
  answers bright green.

## Model

| member | source | states |
|---|---|---|
| `BadgeUtility.Coverage` | src/main/java/org/gahan/BadgeUtility.java:42-71 | The outcome of `calculateCoverage` for a report. It exists exactly when every count cell of the data records parses, and it is then the percentage of the sums of columns 3 and 4. On failure the error names a rejected count cell of some data record. |
| `BadgeUtility.DataRows` | src/main/java/org/gahan/BadgeUtility.java:44-45 | The data records are all records after the first, in order; an empty report has none. |
| `BadgeUtility.CellCount` | src/main/java/org/gahan/BadgeUtility.java:56-61 | A cell adds an `int`-range value, or fails with an error naming the cell's own non-empty text. Null and empty cells count 0 (`GuardedParse`). |
| `BadgeUtility.AddRecord` | src/main/java/org/gahan/BadgeUtility.java:56-62 | One loop body succeeds exactly when both count cells of the row parse. On failure the error names a rejected count cell of that row. |
| `BadgeUtility.Tally` | src/main/java/org/gahan/BadgeUtility.java:48-63 | The loop as a fold. A failure's error names a rejected count cell of some row. Additivity and agreement with the column sums are `TallyAppend` and `TallyMatchesColumnSums`. |
| `BadgeUtility.CoveragePercent` | src/main/java/org/gahan/BadgeUtility.java:67-69 | With non-negative totals the percentage lies in [0, 100], including the 0 / 0 case. The exact value is given by `PercentInRange`, `NoInstructionsIsZero` and `ZeroTotalClamps`. |
| `BadgeUtility.CoverageOfValidReport` | src/main/java/org/gahan/BadgeUtility.java:42-71 | A report whose data records all parse, with non-negative column sums that are not both zero, has a coverage in [0, 100]. That coverage is `100 * covered / (covered + missed)` rounded down. |
| `BadgeUtility.ColorFromRange` | src/main/java/org/gahan/BadgeUtility.java:110-125 | Bright green exactly for negative input and input of 80 or more. On [0, 80) the colour's rank is 0 below 40 and otherwise the tens digit minus 3. The table agreement, monotonicity and boundaries are the lemmas below. |
| `BadgeUtility.CalculateCoverage` | src/main/java/org/gahan/BadgeUtility.java:42-71 | The loop's result equals the fold `Tally` over the records after the header, turned into a percentage. It succeeds exactly when every missed and covered cell of every data record is null, empty or a valid `int`. On success the result is the percentage of the column sums of columns 3 and 4. |
| `BadgeUtility.GuardedParse` | src/main/java/org/gahan/BadgeUtility.java:56-62 | Proof step for the loop: a null or empty cell adds 0. Any other cell adds the value `Integer.parseInt` gives, or fails with its error. |
| `BadgeUtility.FailingRow` | src/main/java/org/gahan/BadgeUtility.java:55-63 | Proof step for the loop: a row whose missed cell fails to parse fails the run with that error. So does a row whose missed cell parses and whose covered cell fails. |
| `BadgeUtility.AddRecordShift` | src/main/java/org/gahan/BadgeUtility.java:56-62 | Proof step for the loop: the loop body adds a row's counts to whatever the totals were, so offsetting the totals before the row offsets the result equally. |
| `BadgeUtility.TallyStep` | src/main/java/org/gahan/BadgeUtility.java:55-63 | Proof step for the loop: taking one more record into account runs the loop body once more on the totals so far: missed cell first, then covered cell. |
| `BadgeUtility.FailureCarriesOver` | src/main/java/org/gahan/BadgeUtility.java:55-63 | Proof step for the loop: a parse failure in a prefix of the records is the failure of the whole run, with the same rejected text. |
| `BadgeUtility.TallyAppend` | src/main/java/org/gahan/BadgeUtility.java:55-63 | Aggregation is additive. The tally of `a + b` is the tally of `a` followed by that of `b`: the totals add up and the first error wins. |
| `BadgeUtility.TallyMatchesColumnSums` | src/main/java/org/gahan/BadgeUtility.java:48-63 | The fold succeeds exactly when all count cells parse. Its missed total is then the sum of column 3 and its covered total the sum of column 4, with null and empty cells counting 0. |
| `BadgeUtility.SumColumnAppend` | src/main/java/org/gahan/BadgeUtility.java:55-63 | The sum of a column over `a + b` is the sum over `a` plus the sum over `b`. |
| `BadgeUtility.HeaderIgnored` | src/main/java/org/gahan/BadgeUtility.java:44-45 | The first record never contributes. Any two headers give the same result, which is that of the data records alone. |
| `BadgeUtility.SameSumsSameCoverage` | src/main/java/org/gahan/BadgeUtility.java:55-69 | Two sets of valid data records with equal column sums give the same successful coverage, however the counts are split across rows. |
| `BadgeUtility.FloorDiv` | src/main/java/org/gahan/BadgeUtility.java:68-69 | The result is the floor of the rational quotient `n / d`, for either sign of `d`. |
| `BadgeUtility.PercentInRange` | src/main/java/org/gahan/BadgeUtility.java:67-69 | Take non-negative totals with at least one instruction. The percentage is then `100 * covered / (covered + missed)` rounded down. It lies in [0, 100] and is 100 exactly when nothing was missed. |
| `BadgeUtility.ZeroTotalClamps` | src/main/java/org/gahan/BadgeUtility.java:67-69 | A zero total with a non-zero covered count divides by zero into an infinity. The cast gives `Integer.MAX_VALUE` for a positive covered count and `Integer.MIN_VALUE` for a negative one. |
| `BadgeUtility.NoInstructionsIsZero` | src/main/java/org/gahan/BadgeUtility.java:67-69 | Zero missed and zero covered give 0 (the NaN of 0 / 0 cast to `int`), not an error. |
| `BadgeUtility.ExampleReports` | src/main/java/org/gahan/BadgeUtility.java:42-71 | Three worked reports. Rows (10 missed, 90 covered) and (0, 100) give 95%, which is bright green. An empty missed cell counts 0. A cell "abc" fails with a number-format error naming "abc". |
| `BadgeUtility.ColorMatchesDocumentedTable` | src/main/java/org/gahan/BadgeUtility.java:73-124 | On [0, 100) the colour is the one the documented range table gives, in both directions. Outside that range the table has no row and the code answers bright green. |
| `BadgeUtility.ColorMonotone` | src/main/java/org/gahan/BadgeUtility.java:112-124 | From 0 upward the colour never gets worse in the order red < orange < yellow < yellow-green < green < bright green. |
| `BadgeUtility.OutOfBandIsBrightGreen` | src/main/java/org/gahan/BadgeUtility.java:111-124 | Any input of 80 or more, and any negative input, is bright green. The "grey for invalid" note is not implemented. |
| `BadgeUtility.ColorBoundaries` | src/main/java/org/gahan/BadgeUtility.java:112-124 | The colours on both sides of every threshold: 39/40, 49/50, 59/60, 69/70 and 79/80, plus 0, 100 and -1. |
| `JavaLang.ParseInt` | src/main/java/org/gahan/BadgeUtility.java:56-61 | A rejected cell fails with a number-format error that carries the rejected text. |
| `JavaLang.ParseIntOfToString` | src/main/java/org/gahan/BadgeUtility.java:57 | Every `int`, printed in decimal, parses back to itself. |
| `JavaLang.ParseIntSpec` | src/main/java/org/gahan/BadgeUtility.java:56-61 | A text is accepted exactly when it is an optional sign followed by one or more decimal digits and its value fits in an `int`. The result is then that signed value. |
| `JavaLang.ParseIntLenientForms` | src/main/java/org/gahan/BadgeUtility.java:57 | "+5" parses to 5, "007" to 7 and "-0" to 0. |
| `JavaLang.ParseIntRange` | src/main/java/org/gahan/BadgeUtility.java:57 | "2147483647" and "-2147483648" are accepted as the `int` bounds. "2147483648" and "-2147483649" are rejected. |
| `JavaLang.ParseIntRejectsMalformed` | src/main/java/org/gahan/BadgeUtility.java:57 | A lone sign, the empty text, a leading or trailing space, an inner sign and "abc" are all rejected. |
| `JavaLang.NarrowToInt` | src/main/java/org/gahan/BadgeUtility.java:69 | The `(int)` cast keeps an in-range integral value and turns NaN into 0. Positive infinity and values above the range become `Integer.MAX_VALUE`. Negative infinity and values below it become `Integer.MIN_VALUE`. |

## Left out

- `calculateWidth` is not modelled. It depends on the PDFBox Helvetica font metrics, which are not part of this model, and it is floating-point arithmetic.
- Opening the file is not modelled: the report is taken as its records. That leaves out the `IOException` for a missing file, the opencsv reader and its quoting and splitting rules, and `reader.close()`. In particular `withSkipLines(1)` skips one line of text, which is modelled as skipping the first record.
- `BadgeUtility.CalculateCoverage` requires every data record to have at least five cells. The source would throw `ArrayIndexOutOfBoundsException` on a shorter one.
- `BadgeUtility.CoveragePercent` uses exact rational arithmetic, but the source converts the `long` totals to `float` and divides in single precision. This changes ordinary reports, not only huge ones. With 47 missed and 53 covered, `(53f / 100f) * 100f` is 52.999996 in `float`, so the source returns 52 while the model returns 53. The same happens with 41 missed and 59 covered: the source returns 58. These two differences do not change the badge colour. Totals beyond 2^24 also lose precision when converted to `float`.
- `BadgeUtility.CalculateCoverage` keeps the accumulators as unbounded integers. The source's `long` accumulators could only overflow after billions of rows, so that overflow is not modelled.
- `JavaLang.ParseInt` accepts only the ASCII digits `0`-`9`. Java's `Integer.parseInt` also accepts other Unicode decimal digits, for example full-width digits, and this model rejects those.
- `JavaLang.NumberFormatError` records only the rejected text, not the exception's message wording.
