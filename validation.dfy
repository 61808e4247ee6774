/**
 * The browser's input checks (frontend/src/utils/validation.ts): the parameter
 * validator, the matrix validator that collects every problem it finds, the
 * text-to-matrix parser, and the all-ones starting grid.
 */
module Validation {
  import opened Wrappers
  import opened Types
  import opened ChestIndex
  import opened JsText

  /** One message of a validation result, with the values it mentions. */
  datatype ValidationError =
    | RowsOutOfRange                                   // n not an integer in 1..500
    | ColumnsOutOfRange                                // m not an integer in 1..500
    | ChestsNotPositive                                // p not a positive integer
    | ChestsExceedCells(p: int, cells: int)            // p larger than n * m
    | RowCountMismatch(expected: int, actual: int)     // the grid has the wrong number of rows
    | RowWidthMismatch(row: int, expected: int, actual: int)
    | CellOutOfRange(row: int, col: int, value: int)   // value outside 1..p (1-indexed cell)
    | ChestAbsent(chest: int)                          // a label below p has no cell
    | TreasureAbsent(p: int)                           // label p has no cell
    | TreasureCountInvalid(p: int, count: int)         // label p has more than one cell

  datatype ValidationResult = ValidationResult(isValid: bool, errors: seq<ValidationError>)

  /** The parameters the browser accepts: a grid of 1..500 by 1..500 cells and a treasure label that fits in it. */
  predicate ValidParams(n: int, m: int, p: int) {
    1 <= n <= 500 && 1 <= m <= 500 && 1 <= p <= n * m
  }

  /** validateParams: every failed check pushes its message; valid means no message. */
  method ValidateParams(n: int, m: int, p: int) returns (result: ValidationResult)
    ensures result.isValid <==> |result.errors| == 0
    ensures result.isValid <==> ValidParams(n, m, p)
    ensures RowsOutOfRange in result.errors <==> !(1 <= n <= 500)
    ensures ColumnsOutOfRange in result.errors <==> !(1 <= m <= 500)
    ensures ChestsNotPositive in result.errors <==> p < 1
    ensures ChestsExceedCells(p, n * m) in result.errors <==> n > 0 && m > 0 && p > n * m
    ensures forall e :: e in result.errors && e.ChestsExceedCells? ==> e == ChestsExceedCells(p, n * m)
    ensures |result.errors| <= 4
  {
    var errors: seq<ValidationError> := [];
    if n < 1 || n > 500 {
      errors := errors + [RowsOutOfRange];
    }
    if m < 1 || m > 500 {
      errors := errors + [ColumnsOutOfRange];
    }
    if p < 1 {
      errors := errors + [ChestsNotPositive];
    }
    if n > 0 && m > 0 && p > n * m {
      errors := errors + [ChestsExceedCells(p, n * m)];
    }
    assert n > 0 && m > 0 ==> n * m > 0;
    return ValidationResult(|errors| == 0, errors);
  }

  /** One message per row whose width is not m, top to bottom (rows 1-indexed). */
  function WidthErrors(matrix: Matrix, m: int): seq<ValidationError>
    decreases |matrix|
  {
    if |matrix| == 0 then []
    else
      WidthErrors(matrix[..|matrix| - 1], m)
      + (if |matrix[|matrix| - 1]| != m then [RowWidthMismatch(|matrix|, m, |matrix[|matrix| - 1]|)] else [])
  }

  /** One message per cell of the row (row index r, 0-based) whose value lies outside 1..p, left to right. */
  function RowCellErrors(row: seq<int>, r: nat, p: int): seq<ValidationError>
    decreases |row|
  {
    if |row| == 0 then []
    else
      var v := row[|row| - 1];
      RowCellErrors(row[..|row| - 1], r, p) + (if v < 1 || v > p then [CellOutOfRange(r + 1, |row|, v)] else [])
  }

  /** The cell messages of the whole grid in row-major order. */
  function CellErrors(matrix: Matrix, p: int): seq<ValidationError>
    decreases |matrix|
  {
    if |matrix| == 0 then []
    else CellErrors(matrix[..|matrix| - 1], p) + RowCellErrors(matrix[|matrix| - 1], |matrix| - 1, p)
  }

  /** What the count map holds for label c: the number of its cells when c is in 1..p, else nothing (0). */
  function Count(matrix: Matrix, c: int, p: int): nat {
    if 1 <= c <= p then |GridOcc(matrix, c)| else 0
  }

  /** One message per label 1..k without a cell, in increasing order. */
  function MissingChestErrors(matrix: Matrix, p: int, k: int): seq<ValidationError>
    decreases if k < 0 then 0 else k
  {
    if k < 1 then []
    else MissingChestErrors(matrix, p, k - 1) + (if Count(matrix, k, p) == 0 then [ChestAbsent(k)] else [])
  }

  function TreasureErrors(matrix: Matrix, p: int): seq<ValidationError> {
    var treasureCount := Count(matrix, p, p);
    if treasureCount == 0 then [TreasureAbsent(p)]
    else if treasureCount != 1 then [TreasureCountInvalid(p, treasureCount)]
    else []
  }

  /** The messages of validateMatrix: the row count alone, else the widths alone, else the rest in order. */
  function MatrixErrors(matrix: Matrix, n: int, m: int, p: int): seq<ValidationError> {
    if |matrix| != n then [RowCountMismatch(n, |matrix|)]
    else if WidthErrors(matrix, m) != [] then WidthErrors(matrix, m)
    else CellErrors(matrix, p) + MissingChestErrors(matrix, p, p - 1) + TreasureErrors(matrix, p)
  }

  /** The grid the browser accepts, stated directly. */
  predicate ValidGrid(matrix: Matrix, n: int, m: int, p: int) {
    && |matrix| == n
    && (forall i :: 0 <= i < |matrix| ==> |matrix[i]| == m)
    && (forall i, j :: 0 <= i < |matrix| && 0 <= j < |matrix[i]| ==> 1 <= matrix[i][j] <= p)
    && (forall c :: 1 <= c < p ==> |GridOcc(matrix, c)| > 0)
    && 1 <= p && |GridOcc(matrix, p)| == 1
  }

  lemma {:induction false} WidthErrorsIff(matrix: Matrix, m: int)
    ensures WidthErrors(matrix, m) == [] <==> forall i :: 0 <= i < |matrix| ==> |matrix[i]| == m
    ensures forall e :: e in WidthErrors(matrix, m) ==>
      e.RowWidthMismatch? && 1 <= e.row <= |matrix| && e.expected == m && e.actual == |matrix[e.row - 1]| != m
    decreases |matrix|
  {
    if |matrix| > 0 {
      var init := matrix[..|matrix| - 1];
      WidthErrorsIff(init, m);
      assert forall i :: 0 <= i < |init| ==> init[i] == matrix[i];
    }
  }

  lemma {:induction false} RowCellErrorsIff(row: seq<int>, r: nat, p: int)
    ensures RowCellErrors(row, r, p) == [] <==> forall j :: 0 <= j < |row| ==> 1 <= row[j] <= p
    ensures forall e :: e in RowCellErrors(row, r, p) ==>
      e.CellOutOfRange? && e.row == r + 1 && 1 <= e.col <= |row| && e.value == row[e.col - 1] && !(1 <= e.value <= p)
    decreases |row|
  {
    if |row| > 0 {
      var init := row[..|row| - 1];
      RowCellErrorsIff(init, r, p);
      assert forall j :: 0 <= j < |init| ==> init[j] == row[j];
    }
  }

  lemma CellErrorsIff(matrix: Matrix, p: int)
    ensures CellErrors(matrix, p) == [] <==>
      forall i, j :: 0 <= i < |matrix| && 0 <= j < |matrix[i]| ==> 1 <= matrix[i][j] <= p
    ensures forall e :: e in CellErrors(matrix, p) ==>
      e.CellOutOfRange? && 1 <= e.row <= |matrix| && 1 <= e.col <= |matrix[e.row - 1]|
      && e.value == matrix[e.row - 1][e.col - 1] && !(1 <= e.value <= p)
  {
    CellErrorsNone(matrix, p);
    CellErrorsSound(matrix, p);
  }

  lemma {:induction false} CellErrorsNone(matrix: Matrix, p: int)
    ensures CellErrors(matrix, p) == [] <==>
      forall i, j :: 0 <= i < |matrix| && 0 <= j < |matrix[i]| ==> 1 <= matrix[i][j] <= p
    decreases |matrix|
  {
    if |matrix| > 0 {
      var init := matrix[..|matrix| - 1];
      var last := matrix[|matrix| - 1];
      CellErrorsNone(init, p);
      RowCellErrorsIff(last, |matrix| - 1, p);
      var before, here := CellErrors(init, p), RowCellErrors(last, |matrix| - 1, p);
      assert CellErrors(matrix, p) == before + here;
      if before == [] && here == [] {
        forall i, j | 0 <= i < |matrix| && 0 <= j < |matrix[i]| ensures 1 <= matrix[i][j] <= p {
          if i < |init| {
            assert matrix[i] == init[i];
          }
        }
      } else if before != [] {
        var i, j :| 0 <= i < |init| && 0 <= j < |init[i]| && !(1 <= init[i][j] <= p);
        assert matrix[i][j] == init[i][j];
      } else {
        var j :| 0 <= j < |last| && !(1 <= last[j] <= p);
        assert matrix[|matrix| - 1][j] == last[j];
      }
    }
  }

  lemma {:induction false} CellErrorsSound(matrix: Matrix, p: int)
    ensures forall e :: e in CellErrors(matrix, p) ==>
      e.CellOutOfRange? && 1 <= e.row <= |matrix| && 1 <= e.col <= |matrix[e.row - 1]|
      && e.value == matrix[e.row - 1][e.col - 1] && !(1 <= e.value <= p)
    decreases |matrix|
  {
    if |matrix| > 0 {
      var init := matrix[..|matrix| - 1];
      var last := matrix[|matrix| - 1];
      CellErrorsSound(init, p);
      RowCellErrorsIff(last, |matrix| - 1, p);
      var before, here := CellErrors(init, p), RowCellErrors(last, |matrix| - 1, p);
      assert CellErrors(matrix, p) == before + here;
      forall e: ValidationError | e in before + here
        ensures e.CellOutOfRange? && 1 <= e.row <= |matrix| && 1 <= e.col <= |matrix[e.row - 1]|
          && e.value == matrix[e.row - 1][e.col - 1] && !(1 <= e.value <= p)
      {
        if e in before {
          assert matrix[e.row - 1] == init[e.row - 1];
        }
      }
    }
  }

  lemma {:induction false} MissingChestErrorsIff(matrix: Matrix, p: int, k: int)
    requires k < p
    ensures MissingChestErrors(matrix, p, k) == [] <==> forall c :: 1 <= c <= k ==> |GridOcc(matrix, c)| > 0
    ensures forall e :: e in MissingChestErrors(matrix, p, k) ==>
      e.ChestAbsent? && 1 <= e.chest <= k && |GridOcc(matrix, e.chest)| == 0
    decreases if k < 0 then 0 else k
  {
    if k >= 1 {
      MissingChestErrorsIff(matrix, p, k - 1);
      var tail := if Count(matrix, k, p) == 0 then [ChestAbsent(k)] else [];
      assert MissingChestErrors(matrix, p, k) == MissingChestErrors(matrix, p, k - 1) + tail;
      assert Count(matrix, k, p) == |GridOcc(matrix, k)|;
      if forall c :: 1 <= c <= k ==> |GridOcc(matrix, c)| > 0 {
        assert tail == [];
      }
    }
  }

  /**
   * validateMatrix reports nothing exactly on the grids the browser accepts:
   * n rows of m cells, every value in 1..p, every label below p present, and
   * the treasure p on exactly one cell.
   */
  lemma MatrixErrorsIff(matrix: Matrix, n: int, m: int, p: int)
    ensures MatrixErrors(matrix, n, m, p) == [] <==> ValidGrid(matrix, n, m, p)
  {
    if |matrix| == n {
      WidthErrorsIff(matrix, m);
      if WidthErrors(matrix, m) == [] {
        CellErrorsIff(matrix, p);
        MissingChestErrorsIff(matrix, p, p - 1);
        var cells, missing, treasure := CellErrors(matrix, p), MissingChestErrors(matrix, p, p - 1), TreasureErrors(matrix, p);
        assert treasure == [] <==> 1 <= p && |GridOcc(matrix, p)| == 1;
        assert missing == [] <==> forall c :: 1 <= c < p ==> |GridOcc(matrix, c)| > 0;
        assert MatrixErrors(matrix, n, m, p) == cells + missing + treasure;
        assert |cells + missing + treasure| == |cells| + |missing| + |treasure|;
        assert ValidGrid(matrix, n, m, p) <==> cells == [] && missing == [] && treasure == [];
      }
    }
  }

  /**
   * The early exits: a wrong row count is the only message; wrong widths are
   * the only messages, one per offending row, and no cell is looked at.
   */
  lemma MatrixErrorsEarlyExits(matrix: Matrix, n: int, m: int, p: int)
    ensures |matrix| != n ==> MatrixErrors(matrix, n, m, p) == [RowCountMismatch(n, |matrix|)]
    ensures |matrix| == n && (exists i :: 0 <= i < |matrix| && |matrix[i]| != m) ==>
      && |MatrixErrors(matrix, n, m, p)| > 0
      && forall e :: e in MatrixErrors(matrix, n, m, p) ==>
        e.RowWidthMismatch? && 1 <= e.row <= |matrix| && |matrix[e.row - 1]| == e.actual != m
    ensures |matrix| == n && (forall i :: 0 <= i < |matrix| ==> |matrix[i]| == m) ==>
      forall e :: e in MatrixErrors(matrix, n, m, p) ==> !e.RowWidthMismatch? && !e.RowCountMismatch?
  {
    WidthErrorsIff(matrix, m);
    CellErrorsIff(matrix, p);
    MissingChestErrorsIff(matrix, p, p - 1);
  }

  /** The count map lookup with 0 for a missing key. */
  function Get(counts: map<int, int>, k: int): int {
    if k in counts then counts[k] else 0
  }

  /** The counting pass over one row: value messages and count updates, cell by cell. */
  method CheckRow(row: seq<int>, r: nat, p: int, counts0: map<int, int>, errors0: seq<ValidationError>)
    returns (counts: map<int, int>, errors: seq<ValidationError>)
    ensures errors == errors0 + RowCellErrors(row, r, p)
    ensures forall c :: Get(counts, c) == Get(counts0, c) + (if 1 <= c <= p then |RowOcc(row, r, c)| else 0)
  {
    counts, errors := counts0, errors0;
    var j := 0;
    while j < |row|
      invariant 0 <= j <= |row|
      invariant errors == errors0 + RowCellErrors(row[..j], r, p)
      invariant forall c :: Get(counts, c) == Get(counts0, c) + (if 1 <= c <= p then |RowOcc(row[..j], r, c)| else 0)
    {
      var value := row[j];
      assert row[..j + 1][..j] == row[..j] && row[..j + 1][j] == value;
      if value < 1 || value > p {
        errors := errors + [CellOutOfRange(r + 1, j + 1, value)];
      } else {
        counts := counts[value := Get(counts, value) + 1];
      }
      j := j + 1;
    }
    assert row[..j] == row;
  }

  /** The width pass of validateMatrix: one message per row of the wrong width. */
  method CheckWidths(matrix: Matrix, m: int) returns (errors: seq<ValidationError>)
    ensures errors == WidthErrors(matrix, m)
  {
    errors := [];
    var i := 0;
    while i < |matrix|
      invariant 0 <= i <= |matrix|
      invariant errors == WidthErrors(matrix[..i], m)
    {
      assert matrix[..i + 1][..i] == matrix[..i];
      if |matrix[i]| != m {
        errors := errors + [RowWidthMismatch(i + 1, m, |matrix[i]|)];
      }
      i := i + 1;
    }
    assert matrix[..i] == matrix;
  }

  /** The counting pass of validateMatrix: value messages, and the number of cells of each label 1..p. */
  method CountCells(matrix: Matrix, p: int) returns (chestCount: map<int, int>, errors: seq<ValidationError>)
    ensures errors == CellErrors(matrix, p)
    ensures forall c :: Get(chestCount, c) == Count(matrix, c, p)
  {
    chestCount, errors := map[], [];
    var i := 0;
    while i < |matrix|
      invariant 0 <= i <= |matrix|
      invariant errors == CellErrors(matrix[..i], p)
      invariant forall c :: Get(chestCount, c) == Count(matrix[..i], c, p)
    {
      assert matrix[..i + 1][..i] == matrix[..i];
      chestCount, errors := CheckRow(matrix[i], i, p, chestCount, errors);
      i := i + 1;
    }
    assert matrix[..i] == matrix;
  }

  /** The presence pass of validateMatrix: one message per label 1..p-1 counted zero times. */
  method CheckMissing(matrix: Matrix, p: int, chestCount: map<int, int>, errors0: seq<ValidationError>)
    returns (errors: seq<ValidationError>)
    requires forall c :: Get(chestCount, c) == Count(matrix, c, p)
    ensures errors == errors0 + MissingChestErrors(matrix, p, p - 1)
  {
    errors := errors0;
    var chest := 1;
    while chest < p
      invariant 1 <= chest && (chest <= p || chest == 1)
      invariant errors == errors0 + MissingChestErrors(matrix, p, chest - 1)
    {
      var count := Get(chestCount, chest);
      MissingChestStep(matrix, p, chest, count, errors0, errors);
      if count == 0 {
        errors := errors + [ChestAbsent(chest)];
      }
      chest := chest + 1;
    }
  }

  /** One label of the presence pass: a zero count appends that label's message, any other count nothing. */
  lemma MissingChestStep(matrix: Matrix, p: int, k: int, count: int, errors0: seq<ValidationError>, errors: seq<ValidationError>)
    requires 1 <= k && count == Count(matrix, k, p)
    requires errors == errors0 + MissingChestErrors(matrix, p, k - 1)
    ensures count == 0 ==> errors + [ChestAbsent(k)] == errors0 + MissingChestErrors(matrix, p, k)
    ensures count != 0 ==> errors == errors0 + MissingChestErrors(matrix, p, k)
  {
  }

  /** validateMatrix: the checks in order, collecting every message of the stage that fails first. */
  method ValidateMatrix(matrix: Matrix, n: int, m: int, p: int) returns (result: ValidationResult)
    ensures result.errors == MatrixErrors(matrix, n, m, p)
    ensures result.isValid <==> |result.errors| == 0
  {
    if |matrix| != n {
      return ValidationResult(false, [RowCountMismatch(n, |matrix|)]);
    }
    var errors := CheckWidths(matrix, m);
    if |errors| > 0 {
      return ValidationResult(false, errors);
    }
    var chestCount;
    chestCount, errors := CountCells(matrix, p);
    errors := CheckMissing(matrix, p, chestCount, errors);
    var treasureCount := Get(chestCount, p);
    if treasureCount == 0 {
      errors := errors + [TreasureAbsent(p)];
    } else if treasureCount != 1 {
      errors := errors + [TreasureCountInvalid(p, treasureCount)];
    }
    return ValidationResult(|errors| == 0, errors);
  }

  /** Why the text cannot be read as an n x m grid. */
  datatype ParseError =
    | LineCountMismatch(expected: int, actual: int)
    | ValueCountMismatch(row: int, expected: int, actual: int)
    | NotANumber(row: int)

  /** The lines that are not blank after trimming, in order. */
  function NonBlank(lines: seq<string>): (kept: seq<string>)
    ensures |kept| <= |lines|
    ensures forall k :: 0 <= k < |kept| ==> Trim(kept[k]) != ""
    ensures |lines| == 1 ==> kept == (if Trim(lines[0]) != "" then lines else [])
    decreases |lines|
  {
    if |lines| == 0 then []
    else
      var last := lines[|lines| - 1];
      NonBlank(lines[..|lines| - 1]) + (if Trim(last) != "" then [last] else [])
  }

  /** The non-blank lines of the trimmed text. */
  function TextLines(text: string): seq<string> {
    NonBlank(SplitOn(Trim(text), '\n'))
  }

  /** parseInt of every separator-delimited piece of the trimmed line. */
  function LineValues(line: string): seq<Option<int>> {
    var pieces := SplitValues(Trim(line));
    seq(|pieces|, k requires 0 <= k < |pieces| => ParseInt(pieces[k]))
  }

  /** Every value of the line is a number (no NaN). */
  predicate AllNumbers(values: seq<Option<int>>) {
    forall k :: 0 <= k < |values| ==> values[k].Some?
  }

  function Numbers(values: seq<Option<int>>): (row: seq<int>)
    requires AllNumbers(values)
    ensures |row| == |values| && forall k :: 0 <= k < |values| ==> values[k] == Some(row[k])
  {
    seq(|values|, k requires 0 <= k < |values| => values[k].value)
  }

  /** The values of row i (0-based) checked: first their count, then that none is NaN. */
  function ParseRow(values: seq<Option<int>>, i: nat, m: int): (r: Result<seq<int>, ParseError>)
    ensures r.Ok? <==> |values| == m && AllNumbers(values)
    ensures r.Ok? ==> |r.value| == m && forall k :: 0 <= k < m ==> values[k] == Some(r.value[k])
    ensures |values| != m ==> r == Err(ValueCountMismatch(i + 1, m, |values|))
    ensures |values| == m && !AllNumbers(values) ==> r == Err(NotANumber(i + 1))
  {
    if |values| != m then Err(ValueCountMismatch(i + 1, m, |values|))
    else if !AllNumbers(values) then Err(NotANumber(i + 1))
    else Ok(Numbers(values))
  }

  /** The values of every line. */
  function LinesValues(lines: seq<string>): (vs: seq<seq<Option<int>>>)
    ensures |vs| == |lines| && forall i :: 0 <= i < |lines| ==> vs[i] == LineValues(lines[i])
  {
    seq(|lines|, i requires 0 <= i < |lines| => LineValues(lines[i]))
  }

  /** The rows read in order; the first failing line decides the error. */
  function ParseRows(vs: seq<seq<Option<int>>>, m: int): (r: Result<Matrix, ParseError>)
    ensures r.Ok? ==> |r.value| == |vs|
    decreases |vs|
  {
    if |vs| == 0 then Ok([])
    else
      match ParseRows(vs[..|vs| - 1], m)
      case Err(e) => Err(e)
      case Ok(rows) =>
        match ParseRow(vs[|vs| - 1], |vs| - 1, m)
        case Err(e) => Err(e)
        case Ok(row) => Ok(rows + [row])
  }

  /** What parseMatrixFromText returns: the line count is checked before any line is read. */
  function ParseMatrix(text: string, n: int, m: int): Result<Matrix, ParseError> {
    var lines := TextLines(text);
    if |lines| != n then Err(LineCountMismatch(n, |lines|)) else ParseRows(LinesValues(lines), m)
  }

  lemma {:induction false} ParseRowsErrPropagates(vs: seq<seq<Option<int>>>, k: nat, m: int)
    requires k <= |vs| && ParseRows(vs[..k], m).Err?
    ensures ParseRows(vs, m) == ParseRows(vs[..k], m)
    decreases |vs| - k
  {
    if k < |vs| {
      assert vs[..k + 1][..k] == vs[..k];
      ParseRowsErrPropagates(vs, k + 1, m);
    } else {
      assert vs[..k] == vs;
    }
  }

  /** One more line read after a successful prefix. */
  lemma ParseRowsSnoc(vs: seq<seq<Option<int>>>, i: nat, m: int, rows: Matrix)
    requires i < |vs| && ParseRows(vs[..i], m) == Ok(rows)
    ensures ParseRows(vs[..i + 1], m) ==
      match ParseRow(vs[i], i, m) case Err(e) => Err(e) case Ok(row) => Ok(rows + [row])
  {
    assert vs[..i + 1][..i] == vs[..i];
  }

  /** parseMatrixFromText: split into lines, then read line by line, returning at the first bad one. */
  method ParseMatrixFromText(text: string, n: int, m: int) returns (r: Result<Matrix, ParseError>)
    ensures r == ParseMatrix(text, n, m)
  {
    var lines := TextLines(text);
    if |lines| != n {
      return Err(LineCountMismatch(n, |lines|));
    }
    r := ParseLines(lines, m);
  }

  /** The line loop of parseMatrixFromText: read each line in turn, returning at the first bad one. */
  method ParseLines(lines: seq<string>, m: int) returns (r: Result<Matrix, ParseError>)
    ensures r == ParseRows(LinesValues(lines), m)
  {
    ghost var vs := LinesValues(lines);
    var matrix: Matrix := [];
    var i := 0;
    while i < |lines|
      invariant 0 <= i <= |lines|
      invariant ParseRows(vs[..i], m) == Ok(matrix)
    {
      var values := LineValues(lines[i]);
      assert values == vs[i];
      ParseLineStep(vs, i, m, matrix);
      if |values| != m {
        return Err(ValueCountMismatch(i + 1, m, |values|));
      }
      if exists k :: 0 <= k < |values| && values[k].None? {
        return Err(NotANumber(i + 1));
      }
      assert AllNumbers(vs[i]);
      matrix := matrix + [Numbers(values)];
      assert ParseRows(vs[..i + 1], m) == Ok(matrix);
      i := i + 1;
    }
    assert vs[..i] == vs;
    return Ok(matrix);
  }

  /** Reading line i after a successful prefix: a bad line decides the whole read, a good one extends the rows. */
  lemma ParseLineStep(vs: seq<seq<Option<int>>>, i: nat, m: int, rows: Matrix)
    requires i < |vs| && ParseRows(vs[..i], m) == Ok(rows)
    ensures |vs[i]| != m ==> ParseRows(vs, m) == Err(ValueCountMismatch(i + 1, m, |vs[i]|))
    ensures |vs[i]| == m && (exists k :: 0 <= k < |vs[i]| && vs[i][k].None?) ==> ParseRows(vs, m) == Err(NotANumber(i + 1))
    ensures |vs[i]| == m && AllNumbers(vs[i]) ==> ParseRows(vs[..i + 1], m) == Ok(rows + [Numbers(vs[i])])
  {
    ParseRowsSnoc(vs, i, m, rows);
    if ParseRow(vs[i], i, m).Err? {
      ParseRowsErrPropagates(vs, i + 1, m);
    }
  }

  /** A successful read holds, row by row, what each line reads as. */
  lemma {:induction false} ParseRowsRows(vs: seq<seq<Option<int>>>, m: int)
    requires ParseRows(vs, m).Ok?
    ensures forall i :: 0 <= i < |vs| ==> ParseRow(vs[i], i, m) == Ok(ParseRows(vs, m).value[i])
    decreases |vs|
  {
    if |vs| > 0 {
      var init := vs[..|vs| - 1];
      ParseRowsRows(init, m);
      assert forall i :: 0 <= i < |init| ==> init[i] == vs[i];
    }
  }

  /** A failed read reports the error of its first unreadable line. */
  lemma {:induction false} ParseRowsFirstError(vs: seq<seq<Option<int>>>, m: int)
    requires ParseRows(vs, m).Err?
    ensures exists i :: 0 <= i < |vs| && ParseRow(vs[i], i, m) == Err(ParseRows(vs, m).error) &&
                        forall k :: 0 <= k < i ==> ParseRow(vs[k], k, m).Ok?
    decreases |vs|
  {
    var init := vs[..|vs| - 1];
    var last := |vs| - 1;
    assert forall k :: 0 <= k < |init| ==> init[k] == vs[k];
    if ParseRows(init, m).Err? {
      ParseRowsFirstError(init, m);
      var i :| 0 <= i < |init| && ParseRow(init[i], i, m) == Err(ParseRows(init, m).error) &&
        forall k :: 0 <= k < i ==> ParseRow(init[k], k, m).Ok?;
      assert ParseRow(vs[i], i, m) == Err(ParseRows(vs, m).error);
    } else {
      ParseRowsRows(init, m);
      assert ParseRow(vs[last], last, m) == Err(ParseRows(vs, m).error);
      assert forall k :: 0 <= k < last ==> ParseRow(vs[k], k, m).Ok?;
    }
  }

  /**
   * A successful parse has n rows of m values, each value what parseInt read
   * from the corresponding piece of the corresponding non-blank line.
   */
  lemma ParseMatrixShape(text: string, n: int, m: int)
    requires ParseMatrix(text, n, m).Ok?
    ensures |ParseMatrix(text, n, m).value| == n
    ensures forall i :: 0 <= i < n ==>
      && |ParseMatrix(text, n, m).value[i]| == m
      && |LineValues(TextLines(text)[i])| == m
      && forall j :: 0 <= j < m ==> LineValues(TextLines(text)[i])[j] == Some(ParseMatrix(text, n, m).value[i][j])
  {
    ParseRowsRows(LinesValues(TextLines(text)), m);
  }

  /** Row i is the first whose values are the wrong number or include a non-number. */
  predicate FirstBadLine(vs: seq<seq<Option<int>>>, i: nat, m: int)
    requires i < |vs|
  {
    && !(|vs[i]| == m && AllNumbers(vs[i]))
    && forall k :: 0 <= k < i ==> |vs[k]| == m && AllNumbers(vs[k])
  }

  /**
   * A failed parse names the line count, or else the first non-blank line
   * (1-indexed) whose value count is wrong or which holds something that is
   * not a number.
   */
  lemma ParseMatrixError(text: string, n: int, m: int)
    requires ParseMatrix(text, n, m).Err?
    ensures |TextLines(text)| != n ==> ParseMatrix(text, n, m) == Err(LineCountMismatch(n, |TextLines(text)|))
    ensures |TextLines(text)| == n ==>
      exists i :: 0 <= i < n && FirstBadLine(LinesValues(TextLines(text)), i, m) &&
                  (ParseMatrix(text, n, m) == Err(ValueCountMismatch(i + 1, m, |LinesValues(TextLines(text))[i]|)) ||
                   ParseMatrix(text, n, m) == Err(NotANumber(i + 1)))
  {
    var lines := TextLines(text);
    if |lines| == n {
      var vs := LinesValues(lines);
      var i := FirstBadRow(vs, m);
      assert ParseMatrix(text, n, m) == ParseRows(vs, m);
    }
  }

  /** The index of the row a failed read reports, and what it reports. */
  lemma FirstBadRow(vs: seq<seq<Option<int>>>, m: int) returns (i: nat)
    requires ParseRows(vs, m).Err?
    ensures i < |vs| && FirstBadLine(vs, i, m)
    ensures ParseRows(vs, m) == Err(ValueCountMismatch(i + 1, m, |vs[i]|)) || ParseRows(vs, m) == Err(NotANumber(i + 1))
  {
    ParseRowsFirstError(vs, m);
    i :| 0 <= i < |vs| && ParseRow(vs[i], i, m) == Err(ParseRows(vs, m).error) &&
      forall k :: 0 <= k < i ==> ParseRow(vs[k], k, m).Ok?;
  }

  /** A grid of natural numbers as text: values joined by spaces, rows by newlines. */
  predicate NatGrid(matrix: Matrix) {
    forall i, j :: 0 <= i < |matrix| && 0 <= j < |matrix[i]| ==> matrix[i][j] >= 0
  }

  function RowTokens(row: seq<int>): (toks: seq<string>)
    requires forall j :: 0 <= j < |row| ==> row[j] >= 0
    ensures |toks| == |row|
  {
    seq(|row|, j requires 0 <= j < |row| => NatToString(row[j]))
  }

  function RowText(row: seq<int>): string
    requires forall j :: 0 <= j < |row| ==> row[j] >= 0
  {
    Join(RowTokens(row), ' ')
  }

  function RowTexts(matrix: Matrix): (texts: seq<string>)
    requires NatGrid(matrix)
    ensures |texts| == |matrix| && forall i :: 0 <= i < |matrix| ==> texts[i] == RowText(matrix[i])
  {
    seq(|matrix|, i requires 0 <= i < |matrix| => RowText(matrix[i]))
  }

  function GridText(matrix: Matrix): string
    requires NatGrid(matrix)
  {
    Join(RowTexts(matrix), '\n')
  }

  /** A row's text starts and ends with a digit and holds no newline. */
  lemma RowTextShape(row: seq<int>)
    requires |row| > 0 && forall j :: 0 <= j < |row| ==> row[j] >= 0
    ensures |RowText(row)| > 0 && IsDigit(RowText(row)[0]) && IsDigit(RowText(row)[|RowText(row)| - 1])
    ensures forall k :: 0 <= k < |RowText(row)| ==> !IsJsSpace(RowText(row)[k]) || RowText(row)[k] == ' '
    ensures forall k :: 0 <= k < |RowText(row)| ==> RowText(row)[k] != '\n'
  {
    var toks := RowTokens(row);
    JoinStartsWithFirst(toks, ' ');
    JoinEndsWithLast(toks, ' ');
    JoinChars(toks, ' ', ch => ch == '\n');
    JoinChars(toks, ' ', ch => IsJsSpace(ch) && ch != ' ');
  }

  /** A row's text reads back as the row's values. */
  lemma ParseRowOfText(row: seq<int>)
    requires |row| > 0 && forall j :: 0 <= j < |row| ==> row[j] >= 0
    ensures |LineValues(RowText(row))| == |row|
    ensures forall j :: 0 <= j < |row| ==> LineValues(RowText(row))[j] == Some(row[j])
  {
    RowPieces(row);
    forall j | 0 <= j < |row| ensures LineValues(RowText(row))[j] == Some(row[j]) {
      ParseIntNatToString(row[j]);
    }
  }

  /** The trimmed row text splits back into the row's tokens. */
  lemma RowPieces(row: seq<int>)
    requires |row| > 0 && forall j :: 0 <= j < |row| ==> row[j] >= 0
    ensures SplitValues(Trim(RowText(row))) == RowTokens(row)
  {
    var toks := RowTokens(row);
    RowTextShape(row);
    TrimUnchanged(RowText(row));
    forall t | 0 <= t < |toks| ensures forall k :: 0 <= k < |toks[t]| ==> !IsValueSep(toks[t][k]) {
      DigitsAvoidSeps(toks[t]);
    }
    SplitValuesJoin(toks);
  }

  lemma {:induction false} NonBlankKeepsAll(lines: seq<string>)
    requires forall k :: 0 <= k < |lines| ==> Trim(lines[k]) != ""
    ensures NonBlank(lines) == lines
    decreases |lines|
  {
    if |lines| > 0 {
      var init := lines[..|lines| - 1];
      var last := lines[|lines| - 1];
      assert forall k :: 0 <= k < |init| ==> init[k] == lines[k];
      NonBlankKeepsAll(init);
      assert Trim(last) != "";
      assert NonBlank(lines) == init + [last];
      InitLast(lines);
    }
  }

  /**
   * Filtering distributes over concatenation: together with the one-line case
   * of NonBlank this says every non-blank line is kept, in order.
   */
  lemma {:induction false} NonBlankConcat(ls: seq<string>, ms: seq<string>)
    ensures NonBlank(ls + ms) == NonBlank(ls) + NonBlank(ms)
    decreases |ms|
  {
    if |ms| == 0 {
      assert ls + ms == ls;
    } else {
      var init := ms[..|ms| - 1];
      var last := ms[|ms| - 1];
      var tail := if Trim(last) != "" then [last] else [];
      InitLast(ms);
      assert ls + ms == (ls + init) + [last];
      NonBlankSnoc(ls + init, last);
      NonBlankSnoc(init, last);
      NonBlankConcat(ls, init);
      var a, b, c := NonBlank(ls), NonBlank(init), tail;
      calc {
        NonBlank(ls + ms);
        NonBlank((ls + init) + [last]);
        NonBlank(ls + init) + c;
        (a + b) + c;
        { ConcatAssoc(a, b, c); }
        a + (b + c);
        a + NonBlank(init + [last]);
        a + NonBlank(ms);
      }
    }
  }

  /** Appending one line appends it to the kept lines exactly when it is not blank. */
  lemma NonBlankSnoc(xs: seq<string>, x: string)
    ensures NonBlank(xs + [x]) == NonBlank(xs) + (if Trim(x) != "" then [x] else [])
  {
    var ys := xs + [x];
    assert ys[..|ys| - 1] == xs;
  }

  lemma {:induction false} ParseRowsOfValues(matrix: Matrix, vs: seq<seq<Option<int>>>, m: int)
    requires |vs| == |matrix| && forall i :: 0 <= i < |matrix| ==> |matrix[i]| == m && |vs[i]| == m
    requires forall i, j :: 0 <= i < |matrix| && 0 <= j < m ==> vs[i][j] == Some(matrix[i][j])
    ensures ParseRows(vs, m) == Ok(matrix)
    decreases |matrix|
  {
    if |matrix| > 0 {
      var k := |matrix| - 1;
      var init := matrix[..k];
      assert forall i :: 0 <= i < k ==> init[i] == matrix[i] && vs[..k][i] == vs[i];
      ParseRowsOfValues(init, vs[..k], m);
      assert Numbers(vs[k]) == matrix[k];
      assert init + [matrix[k]] == matrix;
    }
  }

  /**
   * Lines joined by newlines read back as themselves, when each line starts and
   * ends with a digit, holds no newline and is not blank.
   */
  lemma LinesOfJoin(texts: seq<string>)
    requires |texts| >= 1
    requires forall i :: 0 <= i < |texts| ==> |texts[i]| > 0 && IsDigit(texts[i][0]) && IsDigit(texts[i][|texts[i]| - 1])
    requires forall i, k :: 0 <= i < |texts| && 0 <= k < |texts[i]| ==> texts[i][k] != '\n'
    requires forall i :: 0 <= i < |texts| ==> Trim(texts[i]) != ""
    ensures TextLines(Join(texts, '\n')) == texts
  {
    var text := Join(texts, '\n');
    JoinStartsWithFirst(texts, '\n');
    JoinEndsWithLast(texts, '\n');
    DigitNotSpace(text[0]);
    DigitNotSpace(text[|text| - 1]);
    TrimUnchanged(text);
    SplitJoin(texts, '\n');
    NonBlankKeepsAll(texts);
    calc {
      TextLines(text);
      NonBlank(SplitOn(Trim(text), '\n'));
      NonBlank(SplitOn(text, '\n'));
      NonBlank(texts);
    }
  }

  lemma DigitNotSpace(ch: char)
    requires IsDigit(ch)
    ensures !IsJsSpace(ch)
  {
  }

  lemma GridTextLines(matrix: Matrix)
    requires |matrix| >= 1 && NatGrid(matrix) && forall i :: 0 <= i < |matrix| ==> |matrix[i]| >= 1
    ensures TextLines(GridText(matrix)) == RowTexts(matrix)
  {
    var texts := RowTexts(matrix);
    forall i | 0 <= i < |texts|
      ensures |texts[i]| > 0 && IsDigit(texts[i][0]) && IsDigit(texts[i][|texts[i]| - 1])
      ensures forall k :: 0 <= k < |texts[i]| ==> texts[i][k] != '\n'
      ensures Trim(texts[i]) != ""
    {
      RowTextShape(matrix[i]);
      TrimUnchanged(texts[i]);
    }
    LinesOfJoin(texts);
  }

  /**
   * The parser reads back every n x m grid of natural numbers (n, m >= 1)
   * written one row per line with single spaces between values.
   */
  lemma ParseGridText(matrix: Matrix, n: int, m: int)
    requires n >= 1 && m >= 1 && |matrix| == n && NatGrid(matrix)
    requires forall i :: 0 <= i < n ==> |matrix[i]| == m
    ensures ParseMatrix(GridText(matrix), n, m) == Ok(matrix)
  {
    var texts := RowTexts(matrix);
    GridTextLines(matrix);
    var vs := LinesValues(texts);
    forall i | 0 <= i < n
      ensures |vs[i]| == m && forall j :: 0 <= j < m ==> vs[i][j] == Some(matrix[i][j])
    {
      ParseRowOfText(matrix[i]);
    }
    ParseRowsOfValues(matrix, vs, m);
  }

  /** createEmptyMatrix: n rows of m ones. */
  function CreateEmptyMatrix(n: nat, m: nat): (matrix: Matrix)
    ensures |matrix| == n
    ensures forall i :: 0 <= i < n ==> |matrix[i]| == m && forall j :: 0 <= j < m ==> matrix[i][j] == 1
  {
    seq(n, i => seq(m, j => 1))
  }

  /** The all-ones grid passes the matrix check exactly for the single-label map (p == 1, one cell). */
  lemma EmptyMatrixValid(n: nat, m: nat, p: int)
    requires n >= 1 && m >= 1
    ensures ValidGrid(CreateEmptyMatrix(n, m), n, m, p) <==> p == 1 && n * m == 1
  {
    var g := CreateEmptyMatrix(n, m);
    GridOccAllOnes(g, n);
    if p >= 2 && |GridOcc(g, p)| == 1 {
      GridOccMembership(g, p, GridOcc(g, p)[0]);
    }
  }

  lemma {:induction false} RowOccAllOnes(row: seq<int>, r: nat)
    requires forall j :: 0 <= j < |row| ==> row[j] == 1
    ensures |RowOcc(row, r, 1)| == |row|
    decreases |row|
  {
    if |row| > 0 {
      RowOccAllOnes(row[..|row| - 1], r);
    }
  }

  /** Every cell of an all-ones grid is listed under label 1. */
  lemma {:induction false} GridOccAllOnes(g: Matrix, n: nat)
    requires |g| == n && forall i, j :: 0 <= i < n && 0 <= j < |g[i]| ==> g[i][j] == 1
    requires n >= 1 && forall i :: 0 <= i < n ==> |g[i]| == |g[0]|
    ensures |GridOcc(g, 1)| == n * |g[0]|
    decreases n
  {
    var w := |g[0]|;
    var init := g[..n - 1];
    assert |g[n - 1]| == w;
    RowOccAllOnes(g[n - 1], n - 1);
    assert |GridOcc(g, 1)| == |GridOcc(init, 1)| + w;
    if n > 1 {
      assert init[0] == g[0];
      GridOccAllOnes(init, n - 1);
      assert (n - 1) * w + w == n * w;
    } else {
      assert init == [];
    }
  }
}
