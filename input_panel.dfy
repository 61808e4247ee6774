/**
 * The input panel (frontend/src/components/InputPanel/InputPanel.tsx): the
 * parameters, the input mode, the grid being edited and the text box, the
 * resize of the grid when the parameters change, and the check-then-submit
 * flow of the calculate button.
 */
module InputForm {
  import opened Wrappers
  import opened Types
  import opened Validation
  import ManualGrid

  /** The panel's three tabs: manual entry, the text box and the random generator. */
  datatype InputMode = Manual | TextArea | Random

  /** The message the panel shows itself, before anything is submitted. */
  datatype LocalError = ParamsRejected(errors: seq<ValidationError>) | ParseRejected(error: ParseError)

  /**
   * The value cell (i, j) gets when the grid is resized: the old value when
   * that cell existed, held a non-zero value and that value is at most p;
   * otherwise 1.
   */
  function KeptValue(prev: Matrix, i: nat, j: nat, p: int): int {
    if i < |prev| && j < |prev[i]| && prev[i][j] != 0 && prev[i][j] <= p then prev[i][j] else 1
  }

  /** What updateMatrixForParams returns. */
  function Resized(prev: Matrix, n: int, m: int, p: int): Matrix {
    if n <= 0 || m <= 0 then prev
    else seq(n, i requires 0 <= i < n => seq(m, j requires 0 <= j < m => KeptValue(prev, i, j, p)))
  }

  /** updateMatrixForParams: build the new grid row by row, cell by cell. */
  method UpdateMatrixForParams(n: int, m: int, p: int, prevMatrix: Matrix) returns (newMatrix: Matrix)
    ensures newMatrix == Resized(prevMatrix, n, m, p)
  {
    if n <= 0 || m <= 0 {
      return prevMatrix;
    }
    newMatrix := [];
    var i := 0;
    while i < n
      invariant 0 <= i <= n
      invariant |newMatrix| == i
      invariant forall a :: 0 <= a < i ==> newMatrix[a] == Resized(prevMatrix, n, m, p)[a]
    {
      var row: seq<int> := [];
      var j := 0;
      while j < m
        invariant 0 <= j <= m
        invariant |row| == j && forall b :: 0 <= b < j ==> row[b] == KeptValue(prevMatrix, i, b, p)
      {
        var kept := i < |prevMatrix| && j < |prevMatrix[i]| && prevMatrix[i][j] != 0 && prevMatrix[i][j] <= p;
        row := row + [if kept then prevMatrix[i][j] else 1];
        j := j + 1;
      }
      newMatrix := newMatrix + [row];
      i := i + 1;
    }
  }

  /** For positive n and m the result has n rows of m cells. */
  lemma ResizedShape(prev: Matrix, n: int, m: int, p: int)
    requires n > 0 && m > 0
    ensures |Resized(prev, n, m, p)| == n
    ensures forall i :: 0 <= i < n ==> |Resized(prev, n, m, p)[i]| == m
  {
  }

  /**
   * A cell keeps its old value exactly when that cell existed and held a
   * non-zero value at most p; every other cell is reset to 1.
   */
  lemma ResizedCells(prev: Matrix, n: int, m: int, p: int)
    requires n > 0 && m > 0
    ensures forall i, j :: 0 <= i < n && 0 <= j < m && i < |prev| && j < |prev[i]| && prev[i][j] != 0 && prev[i][j] <= p ==>
      Resized(prev, n, m, p)[i][j] == prev[i][j]
    ensures forall i, j :: 0 <= i < n && 0 <= j < m && !(i < |prev| && j < |prev[i]| && prev[i][j] != 0 && prev[i][j] <= p) ==>
      Resized(prev, n, m, p)[i][j] == 1
  {
  }

  /** Resizing twice to the same parameters is resizing once. */
  lemma ResizedIdempotent(prev: Matrix, n: int, m: int, p: int)
    ensures Resized(Resized(prev, n, m, p), n, m, p) == Resized(prev, n, m, p)
  {
    if n > 0 && m > 0 {
      var once := Resized(prev, n, m, p);
      var twice := Resized(once, n, m, p);
      forall i | 0 <= i < n ensures twice[i] == once[i] {
        assert forall j :: 0 <= j < m ==> twice[i][j] == once[i][j];
      }
    }
  }

  /** From a grid of positive values, a resize with p >= 1 yields values in 1..p only. */
  lemma ResizedInRange(prev: Matrix, n: int, m: int, p: int)
    requires n > 0 && m > 0 && p >= 1
    requires forall i, j :: 0 <= i < |prev| && 0 <= j < |prev[i]| ==> prev[i][j] >= 1
    ensures forall i, j :: 0 <= i < n && 0 <= j < m ==> 1 <= Resized(prev, n, m, p)[i][j] <= p
  {
  }

  /** A grid that already has the shape and values in 1..p is left as it is. */
  lemma ResizedFixpoint(prev: Matrix, n: int, m: int, p: int)
    requires n > 0 && m > 0 && |prev| == n && forall i :: 0 <= i < n ==> |prev[i]| == m
    requires forall i, j :: 0 <= i < n && 0 <= j < m ==> 1 <= prev[i][j] <= p
    ensures Resized(prev, n, m, p) == prev
  {
    var r := Resized(prev, n, m, p);
    forall i | 0 <= i < n ensures r[i] == prev[i] {
      assert forall j :: 0 <= j < m ==> r[i][j] == prev[i][j];
    }
  }

  class InputPanel {
    var n: int
    var m: int
    var p: int
    var inputMode: InputMode
    var matrix: Matrix
    var textAreaValue: string
    var localError: Option<LocalError>

    /** A 3 x 3 grid of ones with three chest labels, in manual mode, with no message. */
    constructor()
      ensures n == 3 && m == 3 && p == 3 && inputMode == Manual
      ensures matrix == CreateEmptyMatrix(3, 3) && textAreaValue == "" && localError == None
    {
      n, m, p := 3, 3, 3;
      inputMode := Manual;
      matrix := CreateEmptyMatrix(3, 3);
      textAreaValue := "";
      localError := None;
    }

    /** handleParamsChange: store the parameters; for positive n and m also resize the grid. */
    method HandleParamsChange(newN: int, newM: int, newP: int)
      modifies this
      ensures n == newN && m == newM && p == newP
      ensures matrix == if newN > 0 && newM > 0 then Resized(old(matrix), newN, newM, newP) else old(matrix)
      ensures inputMode == old(inputMode) && textAreaValue == old(textAreaValue) && localError == old(localError)
    {
      n, m, p := newN, newM, newP;
      if newN > 0 && newM > 0 {
        matrix := UpdateMatrixForParams(newN, newM, newP, matrix);
      }
    }

    /** handleModeChange: switch the mode and clear the message. */
    method HandleModeChange(newMode: InputMode)
      modifies this
      ensures inputMode == newMode && localError == None
      ensures n == old(n) && m == old(m) && p == old(p) && matrix == old(matrix) && textAreaValue == old(textAreaValue)
    {
      inputMode := newMode;
      localError := None;
    }

    /** The grid's onChange with an edited cell: the clamped single-cell update. */
    method HandleCellChange(row: int, col: int, value: string)
      modifies this
      ensures matrix == ManualGrid.HandleCellChange(old(matrix), p, row, col, value)
      ensures n == old(n) && m == old(m) && p == old(p) && inputMode == old(inputMode)
      ensures textAreaValue == old(textAreaValue) && localError == old(localError)
    {
      matrix := ManualGrid.HandleCellChange(matrix, p, row, col, value);
    }

    /** The text box's onChange. */
    method HandleTextChange(text: string)
      modifies this
      ensures textAreaValue == text
      ensures n == old(n) && m == old(m) && p == old(p) && inputMode == old(inputMode)
      ensures matrix == old(matrix) && localError == old(localError)
    {
      textAreaValue := text;
    }

    /**
     * handleCalculate: the parameters are checked first, then in text mode the
     * text is parsed; only when both pass is a grid handed on (the result).
     */
    method HandleCalculate() returns (submitted: Option<Matrix>)
      modifies this
      ensures n == old(n) && m == old(m) && p == old(p) && inputMode == old(inputMode)
      ensures matrix == old(matrix) && textAreaValue == old(textAreaValue)
      ensures !ValidParams(n, m, p) ==>
        submitted == None && localError.Some? && localError.value.ParamsRejected? && |localError.value.errors| > 0
      ensures !ValidParams(n, m, p) ==>
        && localError.Some? && localError.value.ParamsRejected?
        && (RowsOutOfRange in localError.value.errors <==> !(1 <= n <= 500))
        && (ColumnsOutOfRange in localError.value.errors <==> !(1 <= m <= 500))
        && (ChestsNotPositive in localError.value.errors <==> p < 1)
        && (ChestsExceedCells(p, n * m) in localError.value.errors <==> n > 0 && m > 0 && p > n * m)
        && (forall e :: e in localError.value.errors && e.ChestsExceedCells? ==> e == ChestsExceedCells(p, n * m))
      ensures ValidParams(n, m, p) && inputMode == TextArea && ParseMatrix(textAreaValue, n, m).Err? ==>
        submitted == None && localError == Some(ParseRejected(ParseMatrix(textAreaValue, n, m).error))
      ensures ValidParams(n, m, p) && inputMode == TextArea && ParseMatrix(textAreaValue, n, m).Ok? ==>
        submitted == Some(ParseMatrix(textAreaValue, n, m).value) && localError == None
      ensures ValidParams(n, m, p) && inputMode != TextArea ==> submitted == Some(matrix) && localError == None
    {
      localError := None;
      var paramsValidation := ValidateParams(n, m, p);
      if !paramsValidation.isValid {
        localError := Some(ParamsRejected(paramsValidation.errors));
        return None;
      }
      var finalMatrix: Matrix;
      if inputMode == TextArea {
        var parsed := ParseMatrixFromText(textAreaValue, n, m);
        if parsed.Err? {
          localError := Some(ParseRejected(parsed.error));
          return None;
        }
        finalMatrix := parsed.value;
      } else {
        finalMatrix := matrix;
      }
      return Some(finalMatrix);
    }

    /** handleReset: back to three rows, three columns, three labels and a grid of ones. */
    method HandleReset()
      modifies this
      ensures n == 3 && m == 3 && p == 3 && matrix == CreateEmptyMatrix(3, 3)
      ensures textAreaValue == "" && localError == None && inputMode == old(inputMode)
    {
      n, m, p := 3, 3, 3;
      matrix := CreateEmptyMatrix(3, 3);
      textAreaValue := "";
      localError := None;
    }

    /** handleRandomGenerate: show the generated grid in manual mode. */
    method HandleRandomGenerate(generatedMatrix: Matrix)
      modifies this
      ensures matrix == generatedMatrix && inputMode == Manual
      ensures n == old(n) && m == old(m) && p == old(p) && textAreaValue == old(textAreaValue) && localError == old(localError)
    {
      matrix := generatedMatrix;
      inputMode := Manual;
    }
  }
}
