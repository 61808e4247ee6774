/**
 * The chest index: every grid cell whose label lies in 1..p, grouped by label,
 * 1-indexed, in row-major scan order (findChestPositions in
 * frontend/src/utils/algorithm.ts; FindChestPositions in the server's service).
 */
module ChestIndex {
  import opened Types
  import opened Wrappers

  type ChestMap = map<int, seq<Pos>>

  /** Positions of the cells of one row (row index r, 0-based) that carry label c, left to right. */
  function RowOcc(row: seq<int>, r: nat, c: int): seq<Pos>
    decreases |row|
  {
    if |row| == 0 then []
    else RowOcc(row[..|row| - 1], r, c) + (if row[|row| - 1] == c then [Pos(r + 1, |row|)] else [])
  }

  /** Positions of all cells of the grid that carry label c, in row-major order. */
  function GridOcc(g: Matrix, c: int): seq<Pos>
    decreases |g|
  {
    if |g| == 0 then []
    else GridOcc(g[..|g| - 1], c) + RowOcc(g[|g| - 1], |g| - 1, c)
  }

  /** The index the scan builds: one (possibly empty) list per label 1..p. */
  function ChestMapOf(g: Matrix, p: int): ChestMap {
    map c | 1 <= c <= p :: GridOcc(g, c)
  }

  /** The cell at 1-indexed position q exists and carries label c. */
  predicate CellIs(g: Matrix, q: Pos, c: int) {
    1 <= q.row <= |g| && 1 <= q.col <= |g[q.row - 1]| && g[q.row - 1][q.col - 1] == c
  }

  /** Strict row-major order of two positions. */
  predicate Before(a: Pos, b: Pos) {
    a.row < b.row || (a.row == b.row && a.col < b.col)
  }

  lemma {:induction false} RowOccMembership(row: seq<int>, r: nat, c: int, q: Pos)
    ensures q in RowOcc(row, r, c) <==> q.row == r + 1 && 1 <= q.col <= |row| && row[q.col - 1] == c
    decreases |row|
  {
    if |row| > 0 {
      RowOccMembership(row[..|row| - 1], r, c, q);
    }
  }

  lemma {:induction false} RowOccSorted(row: seq<int>, r: nat, c: int)
    ensures forall a :: 0 <= a < |RowOcc(row, r, c)| ==>
      RowOcc(row, r, c)[a].row == r + 1 && 1 <= RowOcc(row, r, c)[a].col <= |row|
    ensures forall a, b :: 0 <= a < b < |RowOcc(row, r, c)| ==>
      RowOcc(row, r, c)[a].col < RowOcc(row, r, c)[b].col
    decreases |row|
  {
    if |row| > 0 {
      RowOccSorted(row[..|row| - 1], r, c);
    }
  }

  /** A position is listed for label c exactly when the grid has that cell and it carries c. */
  lemma {:induction false} GridOccMembership(g: Matrix, c: int, q: Pos)
    ensures q in GridOcc(g, c) <==> CellIs(g, q, c)
    decreases |g|
  {
    if |g| > 0 {
      var init, last := g[..|g| - 1], g[|g| - 1];
      GridOccMembership(init, c, q);
      RowOccMembership(last, |g| - 1, c, q);
      assert GridOcc(g, c) == GridOcc(init, c) + RowOcc(last, |g| - 1, c);
      if 1 <= q.row <= |init| {
        assert g[q.row - 1] == init[q.row - 1];
        assert CellIs(g, q, c) == CellIs(init, q, c);
      } else if q.row == |g| {
        assert !CellIs(init, q, c);
        assert CellIs(g, q, c) == (1 <= q.col <= |last| && last[q.col - 1] == c);
      } else {
        assert !CellIs(init, q, c) && !CellIs(g, q, c);
      }
    }
  }

  /** The list for label c is in strict row-major order, so no position occurs twice. */
  lemma {:induction false} GridOccRowMajor(g: Matrix, c: int)
    ensures forall q :: q in GridOcc(g, c) ==> 1 <= q.row <= |g|
    ensures forall a, b :: 0 <= a < b < |GridOcc(g, c)| ==> Before(GridOcc(g, c)[a], GridOcc(g, c)[b])
    decreases |g|
  {
    if |g| > 0 {
      var init := g[..|g| - 1];
      GridOccRowMajor(init, c);
      RowOccSorted(g[|g| - 1], |g| - 1, c);
      var left, right := GridOcc(init, c), RowOcc(g[|g| - 1], |g| - 1, c);
      assert GridOcc(g, c) == left + right;
      forall a, b | 0 <= a < b < |left + right|
        ensures Before((left + right)[a], (left + right)[b])
      {
        if b < |left| {
        } else if a < |left| {
          assert left[a] in GridOcc(init, c);
        }
      }
      forall q | q in GridOcc(g, c) ensures 1 <= q.row <= |g| {
        if q in right {
          var k :| 0 <= k < |right| && right[k] == q;
        }
      }
    }
  }

  /** The first listed position for label c lies before every other cell carrying c. */
  lemma FirstIsRowMajorFirst(g: Matrix, c: int, q: Pos)
    requires |GridOcc(g, c)| > 0 && CellIs(g, q, c) && q != GridOcc(g, c)[0]
    ensures Before(GridOcc(g, c)[0], q)
  {
    GridOccMembership(g, c, q);
    GridOccRowMajor(g, c);
    var k :| 0 <= k < |GridOcc(g, c)| && GridOcc(g, c)[k] == q;
  }

  /**
   * The scan of findChestPositions: one empty list per label 1..p, then every
   * in-range cell appended, 1-indexed, to its label's list in row-major order.
   * Labels outside 1..p are skipped and get no list.
   */
  method FindChestPositions(matrix: Matrix, p: int) returns (positions: ChestMap)
    ensures forall c :: c in positions <==> 1 <= c <= p
    ensures forall c :: 1 <= c <= p ==> positions[c] == GridOcc(matrix, c)
    ensures positions == ChestMapOf(matrix, p)
  {
    positions := map[];
    var chest := 1;
    while chest <= p
      invariant 1 <= chest <= if p >= 1 then p + 1 else 1
      invariant forall c :: c in positions <==> 1 <= c < chest
      invariant forall c :: c in positions ==> positions[c] == []
    {
      positions := positions[chest := []];
      chest := chest + 1;
    }
    var row := 0;
    while row < |matrix|
      invariant 0 <= row <= |matrix|
      invariant forall c :: c in positions <==> 1 <= c <= p
      invariant forall c :: 1 <= c <= p ==> positions[c] == GridOcc(matrix[..row], c)
    {
      var col := 0;
      assert matrix[row][..0] == [];
      while col < |matrix[row]|
        invariant 0 <= col <= |matrix[row]|
        invariant forall c :: c in positions <==> 1 <= c <= p
        invariant forall c :: 1 <= c <= p ==>
          positions[c] == GridOcc(matrix[..row], c) + RowOcc(matrix[row][..col], row, c)
      {
        var chestNumber := matrix[row][col];
        assert matrix[row][..col + 1][..col] == matrix[row][..col];
        if chestNumber >= 1 && chestNumber <= p {
          var pos := Pos(row + 1, col + 1);
          positions := positions[chestNumber := positions[chestNumber] + [pos]];
        }
        col := col + 1;
      }
      assert matrix[row][..col] == matrix[row];
      assert matrix[..row + 1][..row] == matrix[..row];
      row := row + 1;
    }
    assert matrix[..row] == matrix;
  }

  /** Every chest type s..k has a non-empty position list. */
  predicate LayersReady(idx: ChestMap, s: int, k: int) {
    forall c :: s <= c <= k ==> c in idx && |idx[c]| > 0
  }

  /** The first label in 1..p whose list is absent or empty, scanning upwards. */
  function FirstMissing(idx: ChestMap, p: int): (r: Option<int>)
    ensures r.None? ==> LayersReady(idx, 1, p)
    ensures r.Some? ==> 1 <= r.value <= p && (r.value !in idx || |idx[r.value]| == 0)
    ensures r.Some? ==> LayersReady(idx, 1, r.value - 1)
    decreases if p < 0 then 0 else p
  {
    if p < 1 then None
    else match FirstMissing(idx, p - 1)
      case Some(c) => Some(c)
      case None => if p !in idx || |idx[p]| == 0 then Some(p) else None
  }

  /** The loop that rejects the grid at the first label without a cell. */
  method FindMissingChest(idx: ChestMap, p: int) returns (missing: Option<int>)
    ensures missing == FirstMissing(idx, p)
  {
    var chest := 1;
    while chest <= p
      invariant 1 <= chest <= if p >= 1 then p + 1 else 1
      invariant FirstMissing(idx, chest - 1) == None
    {
      if chest !in idx || |idx[chest]| == 0 {
        return Some(chest);
      }
      chest := chest + 1;
    }
    return None;
  }
}
