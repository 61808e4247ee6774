/**
 * Editing one cell of the grid by hand
 * (frontend/src/components/InputPanel/ManualGridInput.tsx): the typed text is
 * read as a number, clamped to 1..p, and written into that single cell.
 */
module ManualGrid {
  import opened Wrappers
  import opened Types
  import opened JsText

  /** parseInt(value, 10) || 1: no number, or zero, reads as 1. */
  function EnteredNumber(value: string): (v: int)
    ensures v != 0
    ensures ParseInt(value).None? || ParseInt(value) == Some(0) ==> v == 1
    ensures ParseInt(value).Some? && ParseInt(value).value != 0 ==> v == ParseInt(value).value
  {
    match ParseInt(value)
    case Some(x) => if x != 0 then x else 1
    case None => 1
  }

  /** max(1, min(p, entered number)). */
  function ClampedValue(value: string, p: int): (v: int)
    ensures p >= 1 ==> 1 <= v <= p
    ensures p < 1 ==> v == 1
    ensures ParseInt(value).None? || ParseInt(value) == Some(0) ==> v == 1
    ensures ParseInt(value).Some? && 1 <= ParseInt(value).value <= p ==> v == ParseInt(value).value
    ensures ParseInt(value).Some? && ParseInt(value).value > p >= 1 ==> v == p
    ensures ParseInt(value).Some? && ParseInt(value).value < 0 ==> v == 1
  {
    var num := EnteredNumber(value);
    var capped := if p < num then p else num;
    if capped < 1 then 1 else capped
  }

  /**
   * The grid with cell (row, col) (0-based) replaced by v: every row is
   * copied, and only the matching row's matching column changes.
   */
  function SetCell(matrix: Matrix, row: int, col: int, v: int): (r: Matrix)
    ensures |r| == |matrix| && forall i :: 0 <= i < |r| ==> |r[i]| == |matrix[i]|
    ensures forall i, j :: 0 <= i < |r| && 0 <= j < |r[i]| && (i != row || j != col) ==> r[i][j] == matrix[i][j]
    ensures 0 <= row < |matrix| && 0 <= col < |matrix[row]| ==> r[row][col] == v
  {
    seq(|matrix|, i requires 0 <= i < |matrix| =>
      if i == row then seq(|matrix[i]|, j requires 0 <= j < |matrix[i]| => if j == col then v else matrix[i][j])
      else matrix[i])
  }

  /** handleCellChange: what the grid becomes when the text of cell (row, col) is edited. */
  function HandleCellChange(matrix: Matrix, p: int, row: int, col: int, value: string): Matrix {
    SetCell(matrix, row, col, ClampedValue(value, p))
  }

  /** Editing a cell that does not exist leaves the grid as it was. */
  lemma OutOfRangeEditUnchanged(matrix: Matrix, p: int, row: int, col: int, value: string)
    requires !(0 <= row < |matrix| && 0 <= col < |matrix[row]|)
    ensures HandleCellChange(matrix, p, row, col, value) == matrix
  {
    var r := HandleCellChange(matrix, p, row, col, value);
    assert forall i :: 0 <= i < |r| ==> r[i] == matrix[i];
  }

  /** With p >= 1 an edit keeps every cell in 1..p, the range the matrix check demands. */
  lemma EditKeepsRange(matrix: Matrix, p: int, row: int, col: int, value: string)
    requires p >= 1
    requires forall i, j :: 0 <= i < |matrix| && 0 <= j < |matrix[i]| ==> 1 <= matrix[i][j] <= p
    ensures forall i, j :: 0 <= i < |matrix| && 0 <= j < |matrix[i]| ==>
      1 <= HandleCellChange(matrix, p, row, col, value)[i][j] <= p
  {
  }

  /** The same edit made twice is the edit made once. */
  lemma EditIdempotent(matrix: Matrix, p: int, row: int, col: int, value: string)
    ensures HandleCellChange(HandleCellChange(matrix, p, row, col, value), p, row, col, value)
         == HandleCellChange(matrix, p, row, col, value)
  {
    var once := HandleCellChange(matrix, p, row, col, value);
    var twice := HandleCellChange(once, p, row, col, value);
    assert forall i :: 0 <= i < |twice| ==> twice[i] == once[i];
  }
}
