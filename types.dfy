/**
 * The shared records of the client (frontend/src/types/index.ts): grid positions,
 * movement steps, the game state shown by the UI, the data-transfer shapes the
 * server returns, and the two conversions from those shapes to the client's own.
 */
module Types {
  import opened Wrappers

  /** A grid position, 1-indexed in both coordinates. */
  datatype Pos = Pos(row: int, col: int)

  /** The traveler always starts at cell (1,1). */
  const Origin: Pos := Pos(1, 1)

  /** One move of the route: from a cell to the next chest's cell. */
  datatype Step = Step(from: Pos, to: Pos, chestNumber: int, distance: real)

  type Matrix = seq<seq<int>>

  /** What the result view needs about one computed (or loaded) map. */
  datatype GameState = GameState(
    matrix: Matrix,
    n: int,
    m: int,
    p: int,
    steps: seq<Step>,
    totalFuel: real,
    chestPositions: map<int, Pos>)

  /** The server's step and position shapes (camelCase JSON). */
  datatype PositionDto = PositionDto(row: int, col: int)
  datatype StepDto = StepDto(from: PositionDto, to: PositionDto, chestNumber: int, distance: real)

  /** The server's detail response for one stored map. */
  datatype PirateTreasureDetail = PirateTreasureDetail(
    mapRows: int,
    mapColumns: int,
    treasureChestNumber: int,
    mapData: Matrix,
    optimalPath: seq<StepDto>,
    totalFuel: real)

  /** Copies a server step into the client's step record, field by field. */
  function ConvertStepDtoToStep(dto: StepDto): (s: Step)
    ensures s.from == Pos(dto.from.row, dto.from.col)
    ensures s.to == Pos(dto.to.row, dto.to.col)
    ensures s.chestNumber == dto.chestNumber && s.distance == dto.distance
  {
    Step(Pos(dto.from.row, dto.from.col), Pos(dto.to.row, dto.to.col), dto.chestNumber, dto.distance)
  }

  /** Index of the last step whose chest number is c, if any. */
  function LastStepOf(steps: seq<Step>, c: int): (r: Option<nat>)
    ensures r.Some? ==> r.value < |steps| && steps[r.value].chestNumber == c
    ensures r.Some? ==> forall j :: r.value < j < |steps| ==> steps[j].chestNumber != c
    ensures r.None? ==> forall j :: 0 <= j < |steps| ==> steps[j].chestNumber != c
    decreases |steps|
  {
    if |steps| == 0 then None
    else if steps[|steps| - 1].chestNumber == c then Some(|steps| - 1)
    else LastStepOf(steps[..|steps| - 1], c)
  }

  /**
   * Builds the client's game state from a stored map: the steps in the same order,
   * and for every chest number that occurs in the steps the target of the LAST
   * step carrying that number.
   */
  method ConvertDetailToGameState(detail: PirateTreasureDetail) returns (g: GameState)
    ensures |g.steps| == |detail.optimalPath|
    ensures forall i :: 0 <= i < |g.steps| ==> g.steps[i] == ConvertStepDtoToStep(detail.optimalPath[i])
    ensures g.chestPositions.Keys == set i | 0 <= i < |g.steps| :: g.steps[i].chestNumber
    ensures forall c :: c in g.chestPositions ==>
      LastStepOf(g.steps, c).Some? && g.chestPositions[c] == g.steps[LastStepOf(g.steps, c).value].to
    ensures g.matrix == detail.mapData && g.n == detail.mapRows && g.m == detail.mapColumns
    ensures g.p == detail.treasureChestNumber && g.totalFuel == detail.totalFuel
  {
    var steps := seq(|detail.optimalPath|, i requires 0 <= i < |detail.optimalPath| =>
      ConvertStepDtoToStep(detail.optimalPath[i]));
    var chestPositions: map<int, Pos> := map[];
    var k := 0;
    while k < |steps|
      invariant 0 <= k <= |steps|
      invariant chestPositions.Keys == set i | 0 <= i < k :: steps[i].chestNumber
      invariant forall c :: c in chestPositions ==>
        LastStepOf(steps[..k], c).Some? && chestPositions[c] == steps[LastStepOf(steps[..k], c).value].to
    {
      assert steps[..k + 1][..k] == steps[..k];
      chestPositions := chestPositions[steps[k].chestNumber := steps[k].to];
      k := k + 1;
    }
    assert steps[..k] == steps;
    g := GameState(detail.mapData, detail.mapRows, detail.mapColumns, detail.treasureChestNumber,
      steps, detail.totalFuel, chestPositions);
  }
}
