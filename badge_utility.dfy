/**
 * The badge utility: the coverage percentage of a JaCoCo CSV report and the
 * badge colour for a percentage.
 *
 * The report arrives as the records the CSV reader yields, header first; a
 * record is a sequence of cells and a cell is `None` where Java would see
 * `null`. Opening the file and splitting it into records are not modelled.
 */
module BadgeUtility {
  import opened Wrappers
  import opened JavaLang

  /** Column of a JaCoCo CSV record holding the number of instructions missed. */
  const InstructionMissedCol: nat := 3
  /** Column of a JaCoCo CSV record holding the number of instructions covered. */
  const InstructionCoveredCol: nat := 4

  type Cell = Option<string>
  type Record = seq<Cell>

  /** A record the loop can index at both count columns without throwing. */
  predicate HasCountColumns(row: Record) {
    InstructionCoveredCol < |row| && InstructionMissedCol < |row|
  }

  predicate AllHaveCountColumns(rows: seq<Record>) {
    forall i :: 0 <= i < |rows| ==> HasCountColumns(rows[i])
  }

  /** What one cell adds to its accumulator: nothing when null or empty, else `Integer.parseInt` of it. */
  function CellCount(cell: Cell): (r: Result<int, NumberFormatError>)
    ensures r.Success? ==> MinInt <= r.value <= MaxInt
    ensures r.Failure? ==> cell == Some(r.error.input) && r.error.input != ""
  {
    match cell
    case None => Success(0)
    case Some(s) =>
      if s == "" then Success(0)
      else match ParseInt(s)
        case Success(v) => Success(v)
        case Failure(e) => Failure(e)
  }

  predicate CellParses(cell: Cell) {
    CellCount(cell).Success?
  }

  /** `row` holds, in a count column, the text `Integer.parseInt` rejected with `e`. */
  predicate RejectedCell(row: Record, e: NumberFormatError)
    requires HasCountColumns(row)
  {
    (row[InstructionMissedCol] == Some(e.input) && CellCount(row[InstructionMissedCol]) == Failure(e)) ||
    (row[InstructionCoveredCol] == Some(e.input) && CellCount(row[InstructionCoveredCol]) == Failure(e))
  }

  /** Every count cell of every row is null, empty or a valid `int`. */
  predicate AllCountsParse(rows: seq<Record>)
    requires AllHaveCountColumns(rows)
  {
    forall i :: 0 <= i < |rows| ==>
      CellParses(rows[i][InstructionMissedCol]) && CellParses(rows[i][InstructionCoveredCol])
  }

  /** Reference definition: the sum of what column `col` contributes over `rows`. */
  function SumColumn(rows: seq<Record>, col: nat): int
    requires forall i :: 0 <= i < |rows| ==> col < |rows[i]| && CellParses(rows[i][col])
  {
    if rows == [] then 0
    else
      var last := rows[|rows| - 1];
      assert CellParses(last[col]);
      SumColumn(rows[..|rows| - 1], col) + CellCount(last[col]).value
  }

  /** The two accumulators of the aggregation loop. */
  datatype Totals = Totals(missed: int, covered: int)

  function Plus(a: Totals, b: Totals): Totals {
    Totals(a.missed + b.missed, a.covered + b.covered)
  }

  /** One pass of the loop body: the missed cell is parsed first, then the covered cell. */
  function AddRecord(t: Totals, row: Record): (r: Result<Totals, NumberFormatError>)
    requires HasCountColumns(row)
    ensures r.Success? <==> CellParses(row[InstructionMissedCol]) && CellParses(row[InstructionCoveredCol])
    ensures r.Failure? ==> RejectedCell(row, r.error)
  {
    match CellCount(row[InstructionMissedCol])
    case Failure(e) => Failure(e)
    case Success(m) =>
      match CellCount(row[InstructionCoveredCol])
      case Failure(e) => Failure(e)
      case Success(c) => Success(Totals(t.missed + m, t.covered + c))
  }

  /** The loop over data rows as a fold: the first cell that fails to parse ends it. */
  function Tally(rows: seq<Record>): (r: Result<Totals, NumberFormatError>)
    requires AllHaveCountColumns(rows)
    ensures r.Failure? ==> exists i :: 0 <= i < |rows| && RejectedCell(rows[i], r.error)
  {
    if rows == [] then Success(Totals(0, 0))
    else
      match Tally(rows[..|rows| - 1])
      case Failure(e) => Failure(e)
      case Success(t) => AddRecord(t, rows[|rows| - 1])
  }

  /** Runs the tallies of two consecutive blocks of rows one after the other. */
  function Then(x: Result<Totals, NumberFormatError>, y: Result<Totals, NumberFormatError>): Result<Totals, NumberFormatError> {
    match x
    case Failure(e) => Failure(e)
    case Success(a) =>
      match y
      case Failure(e) => Failure(e)
      case Success(b) => Success(Plus(a, b))
  }

  /** `Math.floor(n / d)` over the rationals. */
  function FloorDiv(n: int, d: int): (q: int)
    requires d != 0
    ensures d > 0 ==> q * d <= n < q * d + d
    ensures d < 0 ==> q * d >= n > q * d + d
  {
    if d > 0 then n / d else (-n) / (-d)
  }

  /**
   * `(int) Math.floor(covered / (covered + missed) * 100)`: a zero total
   * divides by zero in floating point, giving NaN for 0 / 0 and an infinity
   * otherwise, and the cast turns those into 0 and the `int` bounds.
   */
  function CoveragePercent(t: Totals): (r: Int32)
    ensures t.missed >= 0 && t.covered >= 0 ==> 0 <= r <= 100
  {
    var total := t.covered + t.missed;
    assert t.missed >= 0 && t.covered >= 0 && total > 0 ==> 0 <= FloorDiv(100 * t.covered, total) <= 100 by {
      if t.missed >= 0 && t.covered >= 0 && total > 0 {
        QuotientBounds(100 * t.covered, total, FloorDiv(100 * t.covered, total), 100 * total);
      }
    }
    NarrowToInt(
      if total == 0 then
        (if t.covered > 0 then PositiveInfinity
         else if t.covered < 0 then NegativeInfinity
         else NaN)
      else Finite(FloorDiv(100 * t.covered, total)))
  }

  /** The records after the header, which the reader is told to skip. */
  function DataRows(report: seq<Record>): (rows: seq<Record>)
    ensures report == [] ==> rows == []
    ensures report != [] ==> |rows| == |report| - 1 && forall i :: 0 <= i < |rows| ==> rows[i] == report[i + 1]
  {
    if report == [] then [] else report[1..]
  }

  /** What `calculateCoverage` returns, or the exception it throws, for a report. */
  function Coverage(report: seq<Record>): (r: Result<Int32, NumberFormatError>)
    requires AllHaveCountColumns(DataRows(report))
    ensures r.Success? <==> AllCountsParse(DataRows(report))
    ensures r.Success? ==> r.value == CoveragePercent(Totals(
      SumColumn(DataRows(report), InstructionMissedCol),
      SumColumn(DataRows(report), InstructionCoveredCol)))
    ensures r.Failure? ==> exists i :: 0 <= i < |DataRows(report)| && RejectedCell(DataRows(report)[i], r.error)
  {
    TallyMatchesColumnSums(DataRows(report));
    match Tally(DataRows(report))
    case Failure(e) => Failure(e)
    case Success(t) => Success(CoveragePercent(t))
  }

  /**
   * `calculateCoverage`: skips the header, adds up the missed and covered
   * columns of every data row and turns the totals into a percentage.
   */
  method CalculateCoverage(report: seq<Record>) returns (r: Result<Int32, NumberFormatError>)
    requires AllHaveCountColumns(DataRows(report))
    ensures r == Coverage(report)
    ensures r.Success? <==> AllCountsParse(DataRows(report))
    ensures r.Success? ==> r.value == CoveragePercent(Totals(
      SumColumn(DataRows(report), InstructionMissedCol),
      SumColumn(DataRows(report), InstructionCoveredCol)))
  {
    var rows := DataRows(report);
    var instructionsMissed: int := 0;
    var instructionsCovered: int := 0;
    var i := 0;
    while i < |rows|
      invariant 0 <= i <= |rows|
      invariant Tally(rows[..i]) == Success(Totals(instructionsMissed, instructionsCovered))
    {
      var line := rows[i];
      ghost var before := Totals(instructionsMissed, instructionsCovered);
      var missedCell := line[InstructionMissedCol];
      GuardedParse(missedCell);
      if missedCell != None && missedCell.value != "" {
        var parsed := ParseInt(missedCell.value);
        if parsed.Failure? {
          FailingRow(rows, i, before, parsed.error);
          return Failure(parsed.error);
        }
        instructionsMissed := instructionsMissed + parsed.value;
      }
      var coveredCell := line[InstructionCoveredCol];
      GuardedParse(coveredCell);
      if coveredCell != None && coveredCell.value != "" {
        var parsed := ParseInt(coveredCell.value);
        if parsed.Failure? {
          FailingRow(rows, i, before, parsed.error);
          return Failure(parsed.error);
        }
        instructionsCovered := instructionsCovered + parsed.value;
      }
      TallyStep(rows, i);
      i := i + 1;
    }
    assert rows[..i] == rows;
    r := Success(CoveragePercent(Totals(instructionsMissed, instructionsCovered)));
  }

  /** The loop's guard on a cell: a null or empty cell adds 0, any other is handed to `Integer.parseInt`. */
  lemma GuardedParse(cell: Cell)
    ensures cell == None || cell.value == "" ==> CellCount(cell) == Success(0)
    ensures cell != None && cell.value != "" && ParseInt(cell.value).Success? ==>
      CellCount(cell) == Success(ParseInt(cell.value).value as int)
    ensures cell != None && cell.value != "" && ParseInt(cell.value).Failure? ==>
      CellCount(cell) == Failure(ParseInt(cell.value).error)
  {
  }

  /** Extending the rows seen so far by one runs the loop body once more. */
  lemma TallyStep(rows: seq<Record>, i: nat)
    requires AllHaveCountColumns(rows) && i < |rows|
    ensures Tally(rows[..i + 1]) == match Tally(rows[..i])
      case Failure(e) => Failure(e)
      case Success(t) => AddRecord(t, rows[i])
  {
    assert rows[..i + 1][..i] == rows[..i];
  }

  /** A row whose missed cell, or else whose covered cell, fails to parse fails the whole run. */
  lemma FailingRow(rows: seq<Record>, i: nat, t: Totals, e: NumberFormatError)
    requires AllHaveCountColumns(rows) && i < |rows|
    requires Tally(rows[..i]) == Success(t)
    requires CellCount(rows[i][InstructionMissedCol]) == Failure(e) ||
      (CellCount(rows[i][InstructionMissedCol]).Success? && CellCount(rows[i][InstructionCoveredCol]) == Failure(e))
    ensures Tally(rows) == Failure(e)
  {
    TallyStep(rows, i);
    FailureCarriesOver(rows, i + 1, e);
  }

  /** Once a prefix of the rows fails, the whole report fails with the same error. */
  lemma FailureCarriesOver(rows: seq<Record>, k: nat, e: NumberFormatError)
    requires AllHaveCountColumns(rows) && k <= |rows|
    requires Tally(rows[..k]) == Failure(e)
    ensures Tally(rows) == Failure(e)
  {
    assert rows == rows[..k] + rows[k..];
    TallyAppend(rows[..k], rows[k..]);
  }

  /**
   * Aggregation is additive: the tally of `a + b` is the tally of `a` followed
   * by that of `b`, the totals adding up and the first error winning.
   */
  lemma {:induction false} TallyAppend(a: seq<Record>, b: seq<Record>)
    requires AllHaveCountColumns(a) && AllHaveCountColumns(b)
    ensures AllHaveCountColumns(a + b)
    ensures Tally(a + b) == Then(Tally(a), Tally(b))
  {
    if b == [] {
      assert a + b == a;
    } else {
      var b' := b[..|b| - 1];
      var last := b[|b| - 1];
      assert (a + b)[..|a + b| - 1] == a + b';
      assert (a + b)[|a + b| - 1] == last;
      TallyAppend(a, b');
      match Tally(a)
      case Failure(e) =>
      case Success(x) =>
        match Tally(b')
        case Failure(e) =>
        case Success(y) => AddRecordShift(x, y, last);
    }
  }

  /** Running the loop body on totals offset by `x` offsets its result by `x`. */
  lemma AddRecordShift(x: Totals, y: Totals, row: Record)
    requires HasCountColumns(row)
    ensures AddRecord(Plus(x, y), row) == Then(Success(x), AddRecord(y, row))
  {
  }

  /**
   * The fold succeeds exactly when every count cell parses, and then its
   * totals are the column sums of the missed and covered columns.
   */
  lemma {:induction false} TallyMatchesColumnSums(rows: seq<Record>)
    requires AllHaveCountColumns(rows)
    ensures Tally(rows).Success? <==> AllCountsParse(rows)
    ensures Tally(rows).Success? ==> Tally(rows).value == Totals(
      SumColumn(rows, InstructionMissedCol), SumColumn(rows, InstructionCoveredCol))
  {
    if rows != [] {
      var init := rows[..|rows| - 1];
      TallyMatchesColumnSums(init);
      assert forall i :: 0 <= i < |init| ==> init[i] == rows[i];
    }
  }

  /** Column sums are additive over consecutive blocks of rows. */
  lemma {:induction false} SumColumnAppend(a: seq<Record>, b: seq<Record>, col: nat)
    requires forall i :: 0 <= i < |a| ==> col < |a[i]| && CellParses(a[i][col])
    requires forall i :: 0 <= i < |b| ==> col < |b[i]| && CellParses(b[i][col])
    ensures forall i :: 0 <= i < |a + b| ==> col < |(a + b)[i]| && CellParses((a + b)[i][col])
    ensures SumColumn(a + b, col) == SumColumn(a, col) + SumColumn(b, col)
  {
    if b == [] {
      assert a + b == a;
    } else {
      assert (a + b)[..|a + b| - 1] == a + b[..|b| - 1];
      SumColumnAppend(a, b[..|b| - 1], col);
    }
  }

  /** The header record never contributes, whatever it holds. */
  lemma HeaderIgnored(header: Record, other: Record, rows: seq<Record>)
    requires AllHaveCountColumns(rows)
    ensures Coverage([header] + rows) == Coverage([other] + rows)
    ensures Coverage([header] + rows) == match Tally(rows)
      case Failure(e) => Failure(e)
      case Success(t) => Success(CoveragePercent(t))
  {
  }

  /**
   * Only the column sums matter: two sets of data rows whose missed and
   * covered columns add up to the same totals give the same coverage, however
   * the counts are spread over rows.
   */
  lemma SameSumsSameCoverage(header: Record, a: seq<Record>, b: seq<Record>)
    requires AllHaveCountColumns(a) && AllCountsParse(a)
    requires AllHaveCountColumns(b) && AllCountsParse(b)
    requires SumColumn(a, InstructionMissedCol) == SumColumn(b, InstructionMissedCol)
    requires SumColumn(a, InstructionCoveredCol) == SumColumn(b, InstructionCoveredCol)
    ensures Coverage([header] + a) == Coverage([header] + b)
    ensures Coverage([header] + a).Success?
  {
    HeaderIgnored(header, header, a);
    HeaderIgnored(header, header, b);
    TallyMatchesColumnSums(a);
    TallyMatchesColumnSums(b);
  }

  /**
   * With non-negative counts and some instructions, the percentage is
   * `100 * covered / (covered + missed)` rounded down, lies in [0, 100], and
   * is 100 exactly when nothing was missed.
   */
  lemma PercentInRange(t: Totals)
    requires t.missed >= 0 && t.covered >= 0 && t.missed + t.covered > 0
    ensures CoveragePercent(t) == (100 * t.covered) / (t.covered + t.missed)
    ensures 0 <= CoveragePercent(t) <= 100
    ensures CoveragePercent(t) == 100 <==> t.missed == 0
  {
    var total := t.covered + t.missed;
    var q := (100 * t.covered) / total;
    assert q * total <= 100 * t.covered < q * total + total;
    QuotientBounds(100 * t.covered, total, q, 100 * total);
    if t.missed > 0 {
      QuotientBounds(100 * t.covered, total, q, 100 * total - 1);
    } else {
      assert 100 * t.covered == 100 * total;
      QuotientBounds(100 * t.covered, total, q, 100 * total);
      assert 100 * total < 101 * total;
    }
  }

  /** A floored quotient of `n` by `d` stays below `k / d + 1` when `n <= k`. */
  lemma QuotientBounds(n: int, d: int, q: int, k: int)
    requires d > 0 && 0 <= n <= k && q * d <= n < q * d + d
    ensures 0 <= q && q * d <= k
    ensures k < 100 * d ==> q < 100
    ensures k == 100 * d ==> q <= 100 && (n == k ==> q == 100)
  {
  }

  /**
   * A report whose data rows all parse, with non-negative column sums that
   * are not both zero, has a coverage in [0, 100]: the covered share of all
   * instructions, rounded down.
   */
  lemma CoverageOfValidReport(report: seq<Record>)
    requires AllHaveCountColumns(DataRows(report)) && AllCountsParse(DataRows(report))
    requires SumColumn(DataRows(report), InstructionMissedCol) >= 0
    requires SumColumn(DataRows(report), InstructionCoveredCol) >= 0
    requires SumColumn(DataRows(report), InstructionMissedCol) + SumColumn(DataRows(report), InstructionCoveredCol) > 0
    ensures Coverage(report).Success?
    ensures 0 <= Coverage(report).value <= 100
    ensures Coverage(report).value == 100 * SumColumn(DataRows(report), InstructionCoveredCol) /
      (SumColumn(DataRows(report), InstructionMissedCol) + SumColumn(DataRows(report), InstructionCoveredCol))
  {
    PercentInRange(Totals(SumColumn(DataRows(report), InstructionMissedCol), SumColumn(DataRows(report), InstructionCoveredCol)));
  }

  /** A report with no counts at all evaluates 0 / 0, which the cast turns into 0. */
  lemma NoInstructionsIsZero(t: Totals)
    requires t.missed == 0 && t.covered == 0
    ensures CoveragePercent(t) == 0
  {
  }

  /**
   * A header and two classes, 10 missed / 90 covered and 0 missed / 100
   * covered: 190 of 200 instructions are covered, 95%, a bright green badge;
   * an empty missed cell counts as 0 and a cell reading "abc" aborts the run.
   */
  lemma ExampleReports()
    ensures Coverage([
      [Some("GROUP"), Some("PACKAGE"), Some("CLASS"), Some("INSTRUCTION_MISSED"), Some("INSTRUCTION_COVERED")],
      [Some("app"), Some("org.gahan"), Some("A"), Some("10"), Some("90")],
      [Some("app"), Some("org.gahan"), Some("B"), Some("0"), Some("100")]]) == Success(95)
    ensures ColorFromRange(95) == BrightGreen
    ensures Coverage([[], [Some("app"), Some("p"), Some("C"), Some(""), Some("5")]]) == Success(100)
    ensures Coverage([[], [Some("app"), Some("p"), Some("C"), Some("abc"), Some("5")]])
      == Failure(NumberFormatError("abc"))
  {
    var a: Record := [Some("app"), Some("org.gahan"), Some("A"), Some("10"), Some("90")];
    var b: Record := [Some("app"), Some("org.gahan"), Some("B"), Some("0"), Some("100")];
    assert DigitsValue("10") == 10 by {
      assert "10"[..1] == "1";
    }
    assert DigitsValue("90") == 90 by {
      assert "90"[..1] == "9";
    }
    assert DigitsValue("100") == 100 by {
      assert "100"[..2] == "10" && "10"[..1] == "1";
    }
    assert CellCount(a[3]) == Success(10) && CellCount(a[4]) == Success(90);
    assert CellCount(b[3]) == Success(0) && CellCount(b[4]) == Success(100);
    assert Tally([a]) == Success(Totals(10, 90)) by {
      assert [a][..0] == [];
    }
    assert Tally([a, b]) == Success(Totals(10, 190)) by {
      assert [a, b][..1] == [a];
    }
    var c: Record := [Some("app"), Some("p"), Some("C"), Some(""), Some("5")];
    assert CellCount(c[4]) == Success(5);
    assert Tally([c]) == Success(Totals(0, 5)) by {
      assert [c][..0] == [];
    }
    var d: Record := [Some("app"), Some("p"), Some("C"), Some("abc"), Some("5")];
    assert !IsDigit("abc"[0]);
    assert Tally([d]) == Failure(NumberFormatError("abc")) by {
      assert [d][..0] == [];
    }
  }

  /**
   * Negative counts can cancel out: with a zero total but a non-zero covered
   * count the division yields an infinity, which the cast clamps to an `int`
   * bound.
   */
  lemma ZeroTotalClamps(t: Totals)
    requires t.missed + t.covered == 0 && t.covered != 0
    ensures CoveragePercent(t) == if t.covered > 0 then MaxInt else MinInt
  {
  }

  /** The six colours of a badge, in rising order of coverage. */
  datatype BadgeColors = Red | Orange | Yellow | YellowGreen | Green | BrightGreen

  /** Position of a colour in the order Red < Orange < ... < BrightGreen. */
  function Rank(c: BadgeColors): nat {
    match c
    case Red => 0
    case Orange => 1
    case Yellow => 2
    case YellowGreen => 3
    case Green => 4
    case BrightGreen => 5
  }

  /** `getColorFromRange`: the colour band of a coverage percentage; everything else is bright green. */
  function ColorFromRange(coverage: Int32): (color: BadgeColors)
    ensures color == BrightGreen <==> coverage < 0 || coverage >= 80
    ensures 0 <= coverage < 80 ==> Rank(color) == if coverage < 40 then 0 else coverage / 10 - 3
  {
    if coverage >= 0 && coverage < 40 then Red
    else if coverage >= 40 && coverage < 50 then Orange
    else if coverage >= 50 && coverage < 60 then Yellow
    else if coverage >= 60 && coverage < 70 then YellowGreen
    else if coverage >= 70 && coverage < 80 then Green
    else BrightGreen
  }

  /** A row of the documented range table: `[low, high)` maps to `color`. */
  datatype Band = Band(low: int, high: int, color: BadgeColors)

  /** The range table of the method's documentation, whose last row is `[80, 100)`. */
  const DocumentedBands: seq<Band> := [
    Band(0, 40, Red), Band(40, 50, Orange), Band(50, 60, Yellow),
    Band(60, 70, YellowGreen), Band(70, 80, Green), Band(80, 100, BrightGreen)]

  predicate Documented(coverage: int, color: BadgeColors) {
    exists i :: 0 <= i < |DocumentedBands| &&
      DocumentedBands[i].low <= coverage < DocumentedBands[i].high &&
      DocumentedBands[i].color == color
  }

  /**
   * On [0, 100) the code agrees with the documented table in both directions;
   * outside it (100 included) the table has no row and the code answers
   * bright green.
   */
  lemma ColorMatchesDocumentedTable(coverage: Int32, color: BadgeColors)
    ensures 0 <= coverage < 100 ==> (Documented(coverage, color) <==> color == ColorFromRange(coverage))
    ensures !(0 <= coverage < 100) ==> !Documented(coverage, color) && ColorFromRange(coverage) == BrightGreen
  {
    if 0 <= coverage < 100 && color == ColorFromRange(coverage) {
      var i := if coverage < 40 then 0 else if coverage < 50 then 1 else if coverage < 60 then 2
        else if coverage < 70 then 3 else if coverage < 80 then 4 else 5;
      assert DocumentedBands[i].low <= coverage < DocumentedBands[i].high;
    }
  }

  /** The colour never gets worse as coverage rises from 0. */
  lemma ColorMonotone(a: Int32, b: Int32)
    requires 0 <= a <= b
    ensures Rank(ColorFromRange(a)) <= Rank(ColorFromRange(b))
  {
  }

  /** Coverage of 80 and above is bright green, and so is invalid, negative coverage: it is not flagged but falls through. */
  lemma OutOfBandIsBrightGreen(coverage: Int32)
    requires coverage < 0 || coverage >= 80
    ensures ColorFromRange(coverage) == BrightGreen
  {
  }

  /** The colour on each side of every threshold. */
  lemma ColorBoundaries()
    ensures ColorFromRange(0) == Red && ColorFromRange(39) == Red
    ensures ColorFromRange(40) == Orange && ColorFromRange(49) == Orange
    ensures ColorFromRange(50) == Yellow && ColorFromRange(59) == Yellow
    ensures ColorFromRange(60) == YellowGreen && ColorFromRange(69) == YellowGreen
    ensures ColorFromRange(70) == Green && ColorFromRange(79) == Green
    ensures ColorFromRange(80) == BrightGreen && ColorFromRange(100) == BrightGreen
    ensures ColorFromRange(-1) == BrightGreen
  {
  }
}
