/**
 * How the browser's checks and route relate to the server's: the browser's
 * rules are strictly stronger, and the two optimizers agree except on a grid
 * whose first row is empty.
 */
module Drift {
  import opened Wrappers
  import opened Types
  import opened ChestIndex
  import opened RouteDp
  import opened Algorithm
  import opened Service
  import opened Validation

  /** Every label 1..p has a cell exactly when the index leaves nothing missing. */
  lemma NoMissingLabel(matrix: Matrix, p: int)
    requires forall c :: 1 <= c <= p ==> |GridOcc(matrix, c)| > 0
    ensures FirstMissing(ChestMapOf(matrix, p), p).None?
  {
    var idx := ChestMapOf(matrix, p);
    assert forall c :: 1 <= c <= p ==> c in idx && |idx[c]| > 0;
  }

  /** A request whose parameters and grid the browser accepts passes the server's validator. */
  lemma ClientValidServerAccepts(name: string, n: int, m: int, p: int, matrix: Matrix)
    requires ValidParams(n, m, p) && ValidGrid(matrix, n, m, p)
    ensures ValidateMapRequest(MapRequest(name, n, m, p, Some(matrix))).None?
  {
  }

  /**
   * Where the first row is readable, the two optimizers return the same steps
   * and report the same missing label.
   */
  lemma RoutesAgree(matrix: Matrix, p: int, dist: DistFn)
    requires |matrix| > 0 && |matrix[0]| > 0
    ensures ClientRoute(matrix, p, dist).Ok? <==> ServerRoute(matrix, p, dist).Ok?
    ensures ClientRoute(matrix, p, dist).Ok? ==> ClientRoute(matrix, p, dist).value == ServerRoute(matrix, p, dist).value
    ensures forall c :: ClientRoute(matrix, p, dist) == Err(ChestMissing(c)) <==> ServerRoute(matrix, p, dist) == Err(MissingChest(c))
  {
  }

  /** A grid the browser accepts has a route, the same on both sides. */
  lemma ValidGridRoutes(matrix: Matrix, n: int, m: int, p: int, dist: DistFn)
    requires ValidParams(n, m, p) && ValidGrid(matrix, n, m, p)
    ensures ClientRoute(matrix, p, dist).Ok? && ServerRoute(matrix, p, dist).Ok?
    ensures ClientRoute(matrix, p, dist).value == ServerRoute(matrix, p, dist).value
  {
    forall c | 1 <= c <= p ensures |GridOcc(matrix, c)| > 0 {
      if c < p {
      } else {
        assert |GridOcc(matrix, p)| == 1;
      }
    }
    NoMissingLabel(matrix, p);
    RoutesAgree(matrix, p, dist);
  }

  /**
   * With an empty first row the client starts at label 1 and routes, while
   * the server's unguarded read of cell (1,1) faults.
   */
  lemma EmptyFirstRowDrift(matrix: Matrix, p: int, dist: DistFn)
    requires |matrix| > 0 && |matrix[0]| == 0 && p >= 1
    requires forall c :: 1 <= c <= p ==> |GridOcc(matrix, c)| > 0
    ensures ClientRoute(matrix, p, dist) == Ok(RouteSteps(ChestMapOf(matrix, p), 1, p, dist))
    ensures ServerRoute(matrix, p, dist) == Err(IndexOutOfRange)
  {
    NoMissingLabel(matrix, p);
  }

  /** Such a grid exists: an empty first row above a row holding the single label. */
  lemma EmptyFirstRowExample(dist: DistFn)
    ensures ServerRoute([[], [1]], 1, dist) == Err(IndexOutOfRange)
    ensures ClientRoute([[], [1]], 1, dist).Ok?
  {
    var g: Matrix := [[], [1]];
    assert g[..1] == [[]];
    assert GridOcc(g, 1) == [Pos(2, 1)];
    EmptyFirstRowDrift(g, 1, dist);
  }

  /** The server checks only the first row's width: a ragged grid passes it, the browser rejects it. */
  lemma RaggedGridDrift(name: string)
    ensures ValidateMapRequest(MapRequest(name, 2, 2, 3, Some([[1, 2], [3]]))).None?
    ensures MatrixErrors([[1, 2], [3]], 2, 2, 3) == [RowWidthMismatch(2, 2, 1)]
  {
    var g: Matrix := [[1, 2], [3]];
    assert g[..1] == [[1, 2]] && g[..1][..0] == [];
    assert WidthErrors(g[..1], 2) == [];
    assert WidthErrors(g, 2) == [RowWidthMismatch(2, 2, 1)];
  }

  /** The server never counts the treasure: two cells labelled p pass it, the browser rejects them. */
  lemma DuplicateTreasureDrift(name: string)
    ensures ValidateMapRequest(MapRequest(name, 1, 3, 2, Some([[1, 2, 2]]))).None?
    ensures MatrixErrors([[1, 2, 2]], 1, 3, 2) == [TreasureCountInvalid(2, 2)]
  {
    var g: Matrix := [[1, 2, 2]];
    var row := g[0];
    assert row[..1] == [1] && row[..2] == [1, 2] && row[..2][..1] == [1] && row[..1][..0] == [];
    assert RowOcc(row[..1], 0, 1) == [Pos(1, 1)] && RowOcc(row[..1], 0, 2) == [];
    assert RowOcc(row[..2], 0, 1) == [Pos(1, 1)] && RowOcc(row[..2], 0, 2) == [Pos(1, 2)];
    assert RowOcc(row, 0, 1) == [Pos(1, 1)] && RowOcc(row, 0, 2) == [Pos(1, 2), Pos(1, 3)];
    assert g[..0] == [];
    assert GridOcc(g, 1) == [Pos(1, 1)] && GridOcc(g, 2) == [Pos(1, 2), Pos(1, 3)];
    assert WidthErrors(g[..0], 3) == [] && WidthErrors(g, 3) == [];
    assert row[..2][..1] == row[..1];
    assert RowCellErrors(row[..1], 0, 2) == [] && RowCellErrors(row[..2], 0, 2) == [] && RowCellErrors(row, 0, 2) == [];
    assert CellErrors(g, 2) == [];
    assert MissingChestErrors(g, 2, 0) == [] && MissingChestErrors(g, 2, 1) == [];
  }
}
