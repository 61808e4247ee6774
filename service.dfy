/**
 * The server side (PirateTreasureService.cs): the request validator shared by
 * save and update, the server's copy of the route optimizer, the stored fuel,
 * and the step shape the detail response carries.
 */
module Service {
  import opened Wrappers
  import opened Types
  import opened ChestIndex
  import opened RouteDp

  /** The business error codes the service throws. */
  datatype BusinessCode = MatrixEmpty | OutOfRange | DimensionNotMatched | ChestNotFound

  /** Every way a save or update can fail; each validator check has its own message. */
  datatype Failure =
    | NoMatrixData                // MatrixEmpty: null, no rows, or first row empty
    | MapSizeOutOfRange           // OutOfRange: map_rows or map_columns outside 1..500
    | RowCountNotMatched          // DimensionNotMatched: number of rows differs from map_rows
    | ColumnCountNotMatched       // DimensionNotMatched: first row's width differs from map_columns
    | TreasureNumberOutOfRange    // OutOfRange: treasure number outside 1..rows*columns
    | MissingChest(chest: int)    // ChestNotFound: no cell carries this label
    | IndexOutOfRange             // runtime fault reading matrix[0][0]: not a business error

  function CodeOf(f: Failure): Option<BusinessCode> {
    match f
    case NoMatrixData => Some(MatrixEmpty)
    case MapSizeOutOfRange => Some(OutOfRange)
    case RowCountNotMatched => Some(DimensionNotMatched)
    case ColumnCountNotMatched => Some(DimensionNotMatched)
    case TreasureNumberOutOfRange => Some(OutOfRange)
    case MissingChest(_) => Some(ChestNotFound)
    case IndexOutOfRange => None
  }

  /** The body of a save or update request; a null Matrix is None. */
  datatype MapRequest = MapRequest(
    name: string,
    mapRows: int,
    mapColumns: int,
    treasureChestNumber: int,
    matrix: Option<Matrix>)

  /** What the server accepts: the conditions of the validator, all at once. */
  predicate AcceptedByServer(req: MapRequest) {
    && req.matrix.Some? && |req.matrix.value| > 0 && |req.matrix.value[0]| > 0
    && 1 <= req.mapRows <= 500 && 1 <= req.mapColumns <= 500
    && |req.matrix.value| == req.mapRows
    && |req.matrix.value[0]| == req.mapColumns
    && 1 <= req.treasureChestNumber <= req.mapRows * req.mapColumns
  }

  /** The first guard: a matrix with at least one row, whose first row is not empty. */
  predicate HasMatrixData(req: MapRequest) {
    req.matrix.Some? && |req.matrix.value| > 0 && |req.matrix.value[0]| > 0
  }

  /** The second guard: map_rows and map_columns both in 1..500. */
  predicate SizeInRange(req: MapRequest) {
    1 <= req.mapRows <= 500 && 1 <= req.mapColumns <= 500
  }

  /**
   * ValidateDataBeforeSave, and the identical ValidateDataBeforeUpdate: the
   * guards in order, reporting the first that fails. Only the first row's width
   * is compared with map_columns, and nothing is said about where the labels lie.
   * Each failure is reported exactly when every earlier guard passes and its own fails.
   */
  function ValidateMapRequest(req: MapRequest): (r: Option<Failure>)
    ensures r.None? <==> AcceptedByServer(req)
    ensures r == Some(NoMatrixData) <==> !HasMatrixData(req)
    ensures r == Some(MapSizeOutOfRange) <==> HasMatrixData(req) && !SizeInRange(req)
    ensures r == Some(RowCountNotMatched) <==>
      HasMatrixData(req) && SizeInRange(req) && |req.matrix.value| != req.mapRows
    ensures r == Some(ColumnCountNotMatched) <==>
      HasMatrixData(req) && SizeInRange(req) && |req.matrix.value| == req.mapRows
      && |req.matrix.value[0]| != req.mapColumns
    ensures r == Some(TreasureNumberOutOfRange) <==>
      HasMatrixData(req) && SizeInRange(req) && |req.matrix.value| == req.mapRows
      && |req.matrix.value[0]| == req.mapColumns
      && !(1 <= req.treasureChestNumber <= req.mapRows * req.mapColumns)
    ensures r.Some? ==> CodeOf(r.value).Some? && !r.value.MissingChest?
  {
    if req.matrix.None? || |req.matrix.value| == 0 || |req.matrix.value[0]| == 0 then Some(NoMatrixData)
    else if req.mapRows < 1 || req.mapRows > 500 || req.mapColumns < 1 || req.mapColumns > 500 then Some(MapSizeOutOfRange)
    else if |req.matrix.value| != req.mapRows then Some(RowCountNotMatched)
    else if |req.matrix.value[0]| != req.mapColumns then Some(ColumnCountNotMatched)
    else if req.treasureChestNumber < 1 || req.treasureChestNumber > req.mapRows * req.mapColumns then Some(TreasureNumberOutOfRange)
    else None
  }

  /** What FindOptimalPath returns, or what it throws. */
  function ServerRoute(matrix: Matrix, p: int, dist: DistFn): Result<seq<Step>, Failure> {
    var idx := ChestMapOf(matrix, p);
    match FirstMissing(idx, p)
    case Some(c) => Err(MissingChest(c))
    case None =>
      if |matrix| == 0 || |matrix[0]| == 0 then Err(IndexOutOfRange)
      else
        var s := if matrix[0][0] == 1 then 2 else 1;
        if s > p then Ok([]) else Ok(RouteSteps(idx, s, p, dist))
  }

  /** FindOptimalPath: the server's copy of the optimizer, reading (1,1) without a guard. */
  method FindOptimalPath(matrix: Matrix, p: int, dist: DistFn) returns (r: Result<seq<Step>, Failure>)
    ensures r == ServerRoute(matrix, p, dist)
  {
    var chestPositions := FindChestPositions(matrix, p);
    var missing := FindMissingChest(chestPositions, p);
    if missing.Some? {
      return Err(MissingChest(missing.value));
    }
    if |matrix| == 0 || |matrix[0]| == 0 {
      return Err(IndexOutOfRange);
    }
    var startValue := matrix[0][0];
    var startChest := 1;
    if startValue == 1 {
      startChest := 2;
    }
    if startChest > p {
      return Ok([]);
    }
    var steps := OptimalSteps(chestPositions, startChest, p, dist);
    return Ok(steps);
  }

  /** The stored row of one map; the identifier and the clock are supplied by the caller. */
  datatype PirateTreasureEntity = PirateTreasureEntity(
    id: nat,
    name: string,
    mapRows: int,
    mapColumns: int,
    treasureChestNumber: int,
    mapData: Matrix,
    optimalPath: seq<Step>,
    totalFuel: real,
    createdDate: int)

  /**
   * The computing part of SavePirateTreasureAsync: validate, find the route, sum
   * its distances, and build the row to store. Writing the row is not modelled.
   */
  method SavePirateTreasure(req: MapRequest, newId: nat, now: int, dist: DistFn)
    returns (r: Result<PirateTreasureEntity, Failure>)
    ensures ValidateMapRequest(req).Some? ==> r == Err(ValidateMapRequest(req).value)
    ensures ValidateMapRequest(req).None? && ServerRoute(req.matrix.value, req.treasureChestNumber, dist).Err? ==>
      r == Err(ServerRoute(req.matrix.value, req.treasureChestNumber, dist).error)
    ensures ValidateMapRequest(req).None? && ServerRoute(req.matrix.value, req.treasureChestNumber, dist).Ok? ==>
      var path := ServerRoute(req.matrix.value, req.treasureChestNumber, dist).value;
      r == Ok(PirateTreasureEntity(newId, req.name, req.mapRows, req.mapColumns, req.treasureChestNumber,
        req.matrix.value, path, Fuel(path), now))
  {
    var failure := ValidateMapRequest(req);
    if failure.Some? {
      return Err(failure.value);
    }
    var optimalPath := FindOptimalPath(req.matrix.value, req.treasureChestNumber, dist);
    if optimalPath.Err? {
      return Err(optimalPath.error);
    }
    var totalFuel := Fuel(optimalPath.value);
    return Ok(PirateTreasureEntity(newId, req.name, req.mapRows, req.mapColumns, req.treasureChestNumber,
      req.matrix.value, optimalPath.value, totalFuel, now));
  }

  /**
   * The computing part of UpdatePirateTreasureAsync: a missing map yields no
   * result before anything is validated; otherwise validate, recompute the route
   * and its fuel, and overwrite the editable fields, keeping id and creation date.
   */
  method UpdatePirateTreasure(existing: Option<PirateTreasureEntity>, req: MapRequest, dist: DistFn)
    returns (r: Result<Option<PirateTreasureEntity>, Failure>)
    ensures existing.None? ==> r == Ok(None)
    ensures existing.Some? && ValidateMapRequest(req).Some? ==> r == Err(ValidateMapRequest(req).value)
    ensures existing.Some? && ValidateMapRequest(req).None? && ServerRoute(req.matrix.value, req.treasureChestNumber, dist).Err? ==>
      r == Err(ServerRoute(req.matrix.value, req.treasureChestNumber, dist).error)
    ensures existing.Some? && ValidateMapRequest(req).None? && ServerRoute(req.matrix.value, req.treasureChestNumber, dist).Ok? ==>
      var path := ServerRoute(req.matrix.value, req.treasureChestNumber, dist).value;
      r == Ok(Some(existing.value.(name := req.name, mapRows := req.mapRows, mapColumns := req.mapColumns,
        treasureChestNumber := req.treasureChestNumber, mapData := req.matrix.value,
        optimalPath := path, totalFuel := Fuel(path))))
  {
    if existing.None? {
      return Ok(None);
    }
    var failure := ValidateMapRequest(req);
    if failure.Some? {
      return Err(failure.value);
    }
    var optimalPath := FindOptimalPath(req.matrix.value, req.treasureChestNumber, dist);
    if optimalPath.Err? {
      return Err(optimalPath.error);
    }
    var totalFuel := Fuel(optimalPath.value);
    var e := existing.value;
    return Ok(Some(e.(name := req.name, mapRows := req.mapRows, mapColumns := req.mapColumns,
      treasureChestNumber := req.treasureChestNumber, mapData := req.matrix.value,
      optimalPath := optimalPath.value, totalFuel := totalFuel)));
  }

  /** The server's step as the detail response carries it. */
  function StepToDto(s: Step): (d: StepDto)
    ensures ConvertStepDtoToStep(d) == s
  {
    StepDto(PositionDto(s.from.row, s.from.col), PositionDto(s.to.row, s.to.col), s.chestNumber, s.distance)
  }

  /** The client's copy of a server step is the server's step. */
  lemma StepDtoRoundTrip(d: StepDto)
    ensures StepToDto(ConvertStepDtoToStep(d)) == d
  {
  }

  /** The detail response of a stored row (GetByIdAsync), with the steps in DTO form. */
  function DetailOf(e: PirateTreasureEntity): (d: PirateTreasureDetail)
    ensures |d.optimalPath| == |e.optimalPath|
    ensures forall i :: 0 <= i < |d.optimalPath| ==> ConvertStepDtoToStep(d.optimalPath[i]) == e.optimalPath[i]
    ensures d.mapData == e.mapData && d.mapRows == e.mapRows && d.mapColumns == e.mapColumns
    ensures d.treasureChestNumber == e.treasureChestNumber && d.totalFuel == e.totalFuel
  {
    PirateTreasureDetail(e.mapRows, e.mapColumns, e.treasureChestNumber, e.mapData,
      seq(|e.optimalPath|, i requires 0 <= i < |e.optimalPath| => StepToDto(e.optimalPath[i])), e.totalFuel)
  }

  /**
   * A request the validator accepts never reaches the unguarded read of (1,1):
   * the route either fails with MissingChest or succeeds.
   */
  lemma AcceptedNeverFaults(req: MapRequest, dist: DistFn)
    requires ValidateMapRequest(req).None?
    ensures ServerRoute(req.matrix.value, req.treasureChestNumber, dist) != Err(IndexOutOfRange)
    ensures ServerRoute(req.matrix.value, req.treasureChestNumber, dist).Err? ==>
      ServerRoute(req.matrix.value, req.treasureChestNumber, dist).error.MissingChest?
  {
  }

  /**
   * The stored fuel of a saved map is the DP cost of the chosen treasure cell,
   * and no tour from (1,1) through one listed cell per label costs less.
   */
  lemma StoredFuelOptimal(req: MapRequest, newId: nat, now: int, dist: DistFn, e: PirateTreasureEntity)
    requires IsDistance(dist) && ValidateMapRequest(req).None?
    requires ServerRoute(req.matrix.value, req.treasureChestNumber, dist).Ok?
    requires e.optimalPath == ServerRoute(req.matrix.value, req.treasureChestNumber, dist).value
    requires e.totalFuel == Fuel(e.optimalPath)
    ensures var matrix := req.matrix.value;
      var p := req.treasureChestNumber;
      var s := if matrix[0][0] == 1 then 2 else 1;
      s <= p ==>
        && e.totalFuel == Dp(ChestMapOf(matrix, p), s, p, dist)[BestFinal(ChestMapOf(matrix, p), s, p, dist)].dist
        && forall vs :: IsChain(ChestMapOf(matrix, p), s, p, vs) ==>
             e.totalFuel <= PathCost(Origin, Positions(ChestMapOf(matrix, p), vs), dist)
  {
    var matrix := req.matrix.value;
    var p := req.treasureChestNumber;
    var s := if matrix[0][0] == 1 then 2 else 1;
    if s <= p {
      RouteOptimal(ChestMapOf(matrix, p), s, p, dist);
    }
  }
}
