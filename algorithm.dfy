/**
 * The client's route computation (frontend/src/utils/algorithm.ts): the chest
 * check, the start rule at cell (1,1), the route itself, the game state the UI
 * shows, and the two small numeric/text helpers of the fuel display.
 */
module Algorithm {
  import opened Wrappers
  import opened Types
  import opened ChestIndex
  import opened RouteDp

  /** Why a route cannot be produced. */
  datatype RouteError =
    | ChestMissing(chest: int)   // no cell carries this label (the "not found" error)
    | NoStartCell                // cell (1,1) cannot be read: the grid has no first row

  /**
   * The first label the route has to reach: 2 when cell (1,1) itself carries
   * label 1 (that chest is opened on the spot), otherwise 1. An empty first row
   * reads as "not label 1".
   */
  function StartChest(matrix: Matrix): (s: int)
    ensures s == 1 || s == 2
    ensures s == 2 <==> CellIs(matrix, Origin, 1)
  {
    if |matrix| > 0 && |matrix[0]| > 0 && matrix[0][0] == 1 then 2 else 1
  }

  /** What calculatePath returns, or the error it throws. */
  function ClientRoute(matrix: Matrix, p: int, dist: DistFn): Result<seq<Step>, RouteError> {
    var idx := ChestMapOf(matrix, p);
    match FirstMissing(idx, p)
    case Some(c) => Err(ChestMissing(c))
    case None =>
      if |matrix| == 0 then Err(NoStartCell)
      else
        var s := StartChest(matrix);
        if s > p then Ok([]) else Ok(RouteSteps(idx, s, p, dist))
  }

  /** calculatePath: index the grid, check every label, apply the start rule, run the optimizer. */
  method CalculatePath(matrix: Matrix, p: int, dist: DistFn) returns (r: Result<seq<Step>, RouteError>)
    ensures r == ClientRoute(matrix, p, dist)
  {
    var chestPositions := FindChestPositions(matrix, p);
    var missing := FindMissingChest(chestPositions, p);
    if missing.Some? {
      return Err(ChestMissing(missing.value));
    }
    if |matrix| == 0 {
      return Err(NoStartCell);
    }
    var startChest := 1;
    if |matrix[0]| > 0 && matrix[0][0] == 1 {
      startChest := 2;
    }
    if startChest > p {
      return Ok([]);
    }
    var steps := OptimalSteps(chestPositions, startChest, p, dist);
    return Ok(steps);
  }

  /** A cell the index lists for a label carries that label. */
  lemma ListedCellCarriesLabel(matrix: Matrix, p: int, v: Visit)
    requires v.chest in ChestMapOf(matrix, p) && v.posIndex < |ChestMapOf(matrix, p)[v.chest]|
    ensures CellIs(matrix, PosOf(ChestMapOf(matrix, p), v), v.chest)
  {
    GridOccMembership(matrix, v.chest, PosOf(ChestMapOf(matrix, p), v));
  }

  /** Any choice of one cell per label s, s+1, ... is a chain of the index. */
  lemma {:induction false} ChainOfCells(matrix: Matrix, p: int, s: int, qs: seq<Pos>) returns (vs: seq<Visit>)
    requires 1 <= s && s + |qs| - 1 <= p
    requires forall t :: 0 <= t < |qs| ==> CellIs(matrix, qs[t], s + t)
    ensures |vs| == |qs| && ValidVisits(ChestMapOf(matrix, p), vs)
    ensures forall t :: 0 <= t < |vs| ==> vs[t].chest == s + t
    ensures Positions(ChestMapOf(matrix, p), vs) == qs
    decreases |qs|
  {
    var idx := ChestMapOf(matrix, p);
    if |qs| == 0 {
      vs := [];
    } else {
      var init := qs[..|qs| - 1];
      var q := qs[|qs| - 1];
      var c := s + |qs| - 1;
      assert forall t :: 0 <= t < |init| ==> init[t] == qs[t];
      var front := ChainOfCells(matrix, p, s, init);
      assert CellIs(matrix, q, c);
      GridOccMembership(matrix, c, q);
      var k :| 0 <= k < |GridOcc(matrix, c)| && GridOcc(matrix, c)[k] == q;
      vs := front + [Visit(c, k)];
      assert forall t :: 0 <= t < |front| ==> vs[t] == front[t];
      assert vs[|front|] == Visit(c, k);
      PositionsSnoc(idx, front, Visit(c, k));
      assert qs == init + [q];
    }
  }

  /**
   * The route is the cheapest way from (1,1) through one cell of each label
   * StartChest..p in order: its fuel is at most the length of any such tour.
   */
  lemma ClientRouteOptimal(matrix: Matrix, p: int, dist: DistFn, qs: seq<Pos>)
    requires IsDistance(dist) && ClientRoute(matrix, p, dist).Ok?
    requires |qs| == p - StartChest(matrix) + 1
    requires forall t :: 0 <= t < |qs| ==> CellIs(matrix, qs[t], StartChest(matrix) + t)
    ensures Fuel(ClientRoute(matrix, p, dist).value) <= PathCost(Origin, qs, dist)
  {
    var s := StartChest(matrix);
    if s <= p {
      ClientRouteRuns(matrix, p, dist);
      GridTourBound(matrix, p, s, dist, qs);
    } else {
      assert qs == [];
    }
  }

  /** Over the grid's index, the optimizer's fuel is at most the length of any tour through labels s..p in order. */
  lemma GridTourBound(matrix: Matrix, p: int, s: int, dist: DistFn, qs: seq<Pos>)
    requires IsDistance(dist) && 1 <= s <= p && LayersReady(ChestMapOf(matrix, p), s, p)
    requires |qs| == p - s + 1
    requires forall t :: 0 <= t < |qs| ==> CellIs(matrix, qs[t], s + t)
    ensures Fuel(RouteSteps(ChestMapOf(matrix, p), s, p, dist)) <= PathCost(Origin, qs, dist)
  {
    var idx := ChestMapOf(matrix, p);
    var vs := ChainOfCells(matrix, p, s, qs);
    assert IsChain(idx, s, p, vs);
    ChainFuelBound(idx, s, p, dist, vs);
  }

  /** A successful browser route from a start label within 1..p is the optimizer's output over a grid with every layer filled. */
  lemma ClientRouteRuns(matrix: Matrix, p: int, dist: DistFn)
    requires ClientRoute(matrix, p, dist).Ok? && StartChest(matrix) <= p
    ensures LayersReady(ChestMapOf(matrix, p), StartChest(matrix), p)
    ensures ClientRoute(matrix, p, dist).value == RouteSteps(ChestMapOf(matrix, p), StartChest(matrix), p, dist)
  {
    assert FirstMissing(ChestMapOf(matrix, p), p).None?;
  }

  /** Consecutive visits of a chain over the grid's index never land on the cell just left. */
  lemma {:induction false} GridChainMoves(matrix: Matrix, p: int, s: int, path: seq<Visit>)
    requires s == StartChest(matrix)
    requires ValidVisits(ChestMapOf(matrix, p), path)
    requires forall t :: 0 <= t < |path| ==> path[t].chest == s + t
    ensures forall t :: 0 <= t < |path| ==>
      PosOf(ChestMapOf(matrix, p), path[t]) != LastPos(ChestMapOf(matrix, p), Origin, path[..t])
  {
    var idx := ChestMapOf(matrix, p);
    forall t | 0 <= t < |path| ensures PosOf(idx, path[t]) != LastPos(idx, Origin, path[..t]) {
      ListedCellCarriesLabel(matrix, p, path[t]);
      if t == 0 {
        assert !CellIs(matrix, Origin, s);
      } else {
        assert path[..t][t - 1] == path[t - 1];
        ListedCellCarriesLabel(matrix, p, path[t - 1]);
      }
    }
  }

  /** Over the grid's index the optimizer emits one step per label s..p, each landing on a cell of its label. */
  lemma GridRouteSteps(matrix: Matrix, p: int, s: int, dist: DistFn)
    requires s == StartChest(matrix) && s <= p && LayersReady(ChestMapOf(matrix, p), s, p)
    ensures |RouteSteps(ChestMapOf(matrix, p), s, p, dist)| == p - s + 1
    ensures forall t :: 0 <= t < p - s + 1 ==>
      RouteSteps(ChestMapOf(matrix, p), s, p, dist)[t].chestNumber == s + t &&
      CellIs(matrix, RouteSteps(ChestMapOf(matrix, p), s, p, dist)[t].to, s + t)
  {
    var idx := ChestMapOf(matrix, p);
    var path := TracePath(idx, s, p, BestFinal(idx, s, p, dist), dist);
    assert ValidVisits(idx, path);
    GridChainMoves(matrix, p, s, path);
    StepsNoSkip(idx, Origin, path, dist);
    var steps := RouteSteps(idx, s, p, dist);
    forall t | 0 <= t < p - s + 1 ensures steps[t].chestNumber == s + t && CellIs(matrix, steps[t].to, s + t) {
      ListedCellCarriesLabel(matrix, p, path[t]);
    }
  }

  /** The optimizer's steps over the grid's index, from the start rule's first label. */
  lemma GridRouteShape(matrix: Matrix, p: int, s: int, dist: DistFn)
    requires s == StartChest(matrix) && s <= p && LayersReady(ChestMapOf(matrix, p), s, p)
    ensures var steps := RouteSteps(ChestMapOf(matrix, p), s, p, dist);
      && |steps| == p - s + 1
      && (forall t :: 0 <= t < |steps| ==> steps[t].chestNumber == s + t && CellIs(matrix, steps[t].to, s + t))
      && (|steps| > 0 ==> steps[0].from == Origin)
      && (forall t :: 0 < t < |steps| ==> steps[t].from == steps[t - 1].to)
      && (forall t :: 0 <= t < |steps| ==> steps[t].from != steps[t].to && steps[t].distance == dist(steps[t].from, steps[t].to))
  {
    GridRouteSteps(matrix, p, s, dist);
    RouteShape(ChestMapOf(matrix, p), s, p, dist);
  }

  /** On success every label 1..p has at least one cell. */
  lemma ClientRouteOkReady(matrix: Matrix, p: int, dist: DistFn)
    requires ClientRoute(matrix, p, dist).Ok?
    ensures |matrix| > 0 && LayersReady(ChestMapOf(matrix, p), 1, p)
    ensures forall c :: 1 <= c <= p ==> |GridOcc(matrix, c)| > 0
  {
    var idx := ChestMapOf(matrix, p);
    forall c | 1 <= c <= p ensures |GridOcc(matrix, c)| > 0 {
      assert c in idx && idx[c] == GridOcc(matrix, c);
    }
  }

  /**
   * The route visits exactly the labels StartChest..p, one step each, in order:
   * every step starts where the previous one ended (the first at (1,1)), moves
   * to a different cell carrying its label, and carries the distance it covers.
   * In particular the skip of a visit on the current cell never happens.
   */
  lemma ClientRouteShape(matrix: Matrix, p: int, dist: DistFn)
    requires ClientRoute(matrix, p, dist).Ok?
    ensures var steps := ClientRoute(matrix, p, dist).value;
      var s := StartChest(matrix);
      && |steps| == (if s > p then 0 else p - s + 1)
      && (forall t :: 0 <= t < |steps| ==> steps[t].chestNumber == s + t && CellIs(matrix, steps[t].to, s + t))
      && (|steps| > 0 ==> steps[0].from == Origin)
      && (forall t :: 0 < t < |steps| ==> steps[t].from == steps[t - 1].to)
      && (forall t :: 0 <= t < |steps| ==> steps[t].from != steps[t].to && steps[t].distance == dist(steps[t].from, steps[t].to))
  {
    var s := StartChest(matrix);
    ClientRouteOkReady(matrix, p, dist);
    if s <= p {
      GridRouteShape(matrix, p, s, dist);
    }
  }

  /** The route fails exactly when a label in 1..p has no cell, or when there is nothing to read (1,1) from. */
  lemma ClientRouteErrors(matrix: Matrix, p: int, dist: DistFn)
    ensures ClientRoute(matrix, p, dist).Err? <==>
      (exists c :: 1 <= c <= p && |GridOcc(matrix, c)| == 0) || |matrix| == 0
    ensures ClientRoute(matrix, p, dist) == Err(NoStartCell) <==> |matrix| == 0 && p < 1
    ensures forall c :: ClientRoute(matrix, p, dist) == Err(ChestMissing(c)) ==>
      1 <= c <= p && |GridOcc(matrix, c)| == 0 && forall d :: 1 <= d < c ==> |GridOcc(matrix, d)| > 0
  {
    var idx := ChestMapOf(matrix, p);
    if |matrix| == 0 && p >= 1 {
      assert GridOcc(matrix, 1) == [];
      assert 1 in idx && idx[1] == [];
    }
    match FirstMissing(idx, p)
    case Some(c) =>
      assert c in idx && idx[c] == GridOcc(matrix, c);
      assert |GridOcc(matrix, c)| == 0;
      forall d | 1 <= d < c ensures |GridOcc(matrix, d)| > 0 {
        assert d in idx && idx[d] == GridOcc(matrix, d);
      }
    case None =>
      forall c | 1 <= c <= p ensures |GridOcc(matrix, c)| > 0 {
        assert c in idx && idx[c] == GridOcc(matrix, c);
      }
  }

  /** Nothing to walk: no labels at all, or the only label is the start cell's own. */
  lemma ClientRouteTrivial(matrix: Matrix, p: int, dist: DistFn)
    requires |matrix| > 0
    requires p < 1 || (p == 1 && |matrix[0]| > 0 && matrix[0][0] == 1)
    ensures ClientRoute(matrix, p, dist) == Ok([])
  {
    if p == 1 {
      var idx := ChestMapOf(matrix, p);
      GridOccMembership(matrix, 1, Origin);
      assert idx[1] == GridOcc(matrix, 1);
    }
  }

  /** The loop of createGameState that keeps, for every label 1..p with a cell, its first listed cell. */
  method FirstChestPositions(allChestPositions: ChestMap, p: int) returns (chestPositions: map<int, Pos>)
    ensures forall c :: c in chestPositions <==>
      1 <= c <= p && c in allChestPositions && |allChestPositions[c]| > 0
    ensures forall c :: c in chestPositions ==> chestPositions[c] == allChestPositions[c][0]
  {
    chestPositions := map[];
    var chest := 1;
    while chest <= p
      invariant 1 <= chest <= if p >= 1 then p + 1 else 1
      invariant forall c :: c in chestPositions <==>
        1 <= c < chest && c in allChestPositions && |allChestPositions[c]| > 0
      invariant forall c :: c in chestPositions ==> chestPositions[c] == allChestPositions[c][0]
    {
      if chest in allChestPositions && |allChestPositions[chest]| > 0 {
        chestPositions := chestPositions[chest := allChestPositions[chest][0]];
      }
      chest := chest + 1;
    }
  }

  /**
   * createGameState: the route, its fuel, and for every label the first cell in
   * row-major order that carries it. A failing route fails the whole call.
   */
  method CreateGameState(matrix: Matrix, n: int, m: int, p: int, dist: DistFn) returns (r: Result<GameState, RouteError>)
    ensures ClientRoute(matrix, p, dist).Err? ==> r == Err(ClientRoute(matrix, p, dist).error)
    ensures ClientRoute(matrix, p, dist).Ok? ==> r.Ok?
    ensures r.Ok? ==>
      && r.value.matrix == matrix && r.value.n == n && r.value.m == m && r.value.p == p
      && r.value.steps == ClientRoute(matrix, p, dist).value
      && r.value.totalFuel == Fuel(r.value.steps)
      && (forall c :: c in r.value.chestPositions <==> 1 <= c <= p)
      && (forall c :: 1 <= c <= p ==> |GridOcc(matrix, c)| > 0 && r.value.chestPositions[c] == GridOcc(matrix, c)[0])
  {
    var allChestPositions := FindChestPositions(matrix, p);
    var route := CalculatePath(matrix, p, dist);
    if route.Err? {
      return Err(route.error);
    }
    var steps := route.value;
    var totalFuel := Fuel(steps);
    ClientRouteOkReady(matrix, p, dist);
    var chestPositions := FirstChestPositions(allChestPositions, p);
    return Ok(GameState(matrix, n, m, p, steps, totalFuel, chestPositions));
  }

  /** The first listed cell of a label is the row-major first cell carrying it. */
  lemma GameStateChestIsFirst(matrix: Matrix, p: int, c: int, q: Pos)
    requires 1 <= c <= p && |GridOcc(matrix, c)| > 0 && CellIs(matrix, q, c)
    ensures q == GridOcc(matrix, c)[0] || Before(GridOcc(matrix, c)[0], q)
  {
    if q != GridOcc(matrix, c)[0] {
      FirstIsRowMajorFirst(matrix, c, q);
    }
  }

  /** Integer square root, the exact value of Math.floor(Math.sqrt(n)). */
  function FloorSqrt(n: nat): (r: nat)
    ensures r * r <= n < (r + 1) * (r + 1)
  {
    if n == 0 then 0
    else
      var r := FloorSqrt(n - 1);
      if (r + 1) * (r + 1) <= n then r + 1 else r
  }

  lemma SquareMonotone(a: nat, b: nat)
    requires a <= b
    ensures a * a <= b * b
  {
  }

  /** A square larger than a positive n does not divide it. */
  lemma LargeSquareNoDivisor(n: int, j: int)
    requires n > 0 && j * j > n
    ensures n % (j * j) != 0
  {
  }

  /**
   * findLargestSquareFactor: 1 for n <= 0; otherwise the largest perfect square
   * dividing n, found by counting i down from floor(sqrt n) to 2.
   */
  method FindLargestSquareFactor(n: int) returns (largestSquare: int)
    ensures n <= 0 ==> largestSquare == 1
    ensures n > 0 ==> exists a: nat :: 1 <= a && largestSquare == a * a
    ensures n > 0 ==> largestSquare >= 1 && n % largestSquare == 0
    ensures n > 0 ==> forall j: nat :: 1 <= j && n % (j * j) == 0 ==> j * j <= largestSquare
  {
    if n <= 0 {
      return 1;
    }
    largestSquare := 1;
    var i := FloorSqrt(n);
    while i >= 2
      invariant 1 <= i + 1 && i <= FloorSqrt(n)
      invariant forall j: nat :: i < j && n % (j * j) == 0 ==> j > FloorSqrt(n)
      decreases i
    {
      var square := i * i;
      if n % square == 0 {
        largestSquare := square;
        forall j: nat | 1 <= j && n % (j * j) == 0 ensures j * j <= largestSquare {
          if j > i {
            if j > FloorSqrt(n) {
              SquareMonotone(FloorSqrt(n) + 1, j);
              LargeSquareNoDivisor(n, j);
            }
          } else {
            SquareMonotone(j, i);
          }
        }
        assert 1 <= i && largestSquare == i * i;
        return;
      }
      i := i - 1;
    }
    forall j: nat | 1 <= j && n % (j * j) == 0 ensures j * j <= largestSquare {
      if j > 1 {
        if j > FloorSqrt(n) {
          SquareMonotone(FloorSqrt(n) + 1, j);
          LargeSquareNoDivisor(n, j);
        }
      }
    }
    assert largestSquare == 1 * 1;
  }

  /** sub occurs in s starting at offset i. */
  predicate OccursAt(s: string, sub: string, i: int) {
    0 <= i <= |s| - |sub| && s[i..i + |sub|] == sub
  }

  /** String.prototype.includes, as a left-to-right scan over the offsets. */
  function Includes(s: string, sub: string): bool
    decreases |s|
  {
    if |s| < |sub| then false
    else s[..|sub|] == sub || (|s| > 0 && Includes(s[1..], sub))
  }

  lemma {:induction false} IncludesAt(s: string, sub: string)
    ensures Includes(s, sub) <==> exists i :: OccursAt(s, sub, i)
    decreases |s|
  {
    if |s| >= |sub| {
      if s[..|sub|] == sub {
        assert OccursAt(s, sub, 0);
      } else if |s| > 0 {
        IncludesAt(s[1..], sub);
        if Includes(s[1..], sub) {
          var i :| OccursAt(s[1..], sub, i);
          assert s[1..][i..i + |sub|] == s[i + 1..i + 1 + |sub|];
          assert OccursAt(s, sub, i + 1);
        }
        if exists i :: OccursAt(s, sub, i) {
          var i :| OccursAt(s, sub, i);
          assert i != 0;
          assert s[1..][i - 1..i - 1 + |sub|] == s[i..i + |sub|];
          assert OccursAt(s[1..], sub, i - 1);
        }
      }
    } else {
      assert forall i :: !OccursAt(s, sub, i);
    }
  }

  const SqrtMarker: string := "\\sqrt"

  /** isLatex: the fuel text uses the square-root macro. */
  function IsLatex(value: string): (b: bool)
    ensures b <==> exists i :: OccursAt(value, SqrtMarker, i)
  {
    IncludesAt(value, SqrtMarker);
    Includes(value, SqrtMarker)
  }

  /** The square-root forms the fuel display produces read as LaTeX. */
  lemma SqrtFormIsLatex(a: string, b: string)
    ensures IsLatex(a + "\\sqrt{" + b + "}")
  {
    var s := a + "\\sqrt{" + b + "}";
    assert s[|a|..|a| + |SqrtMarker|] == SqrtMarker;
    assert OccursAt(s, SqrtMarker, |a|);
    IncludesAt(s, SqrtMarker);
  }

  /** Text without a backslash never reads as LaTeX, e.g. the integer form of the fuel. */
  lemma NoBackslashNotLatex(value: string)
    requires forall k :: 0 <= k < |value| ==> value[k] != '\\'
    ensures !IsLatex(value)
  {
    IncludesAt(value, SqrtMarker);
    forall i ensures !OccursAt(value, SqrtMarker, i) {
      if 0 <= i <= |value| - |SqrtMarker| {
        assert value[i..i + |SqrtMarker|][0] == value[i];
      }
    }
  }
}
