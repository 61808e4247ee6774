# Pirate treasure route: a verified model

The Pirate Treasure application takes an n×m grid whose cells carry chest
labels 1..p. Label p is the treasure. The pirate starts at cell (1,1) and must
visit one cell of each label in order, ending at the treasure. The
application finds the visiting order that needs the least fuel, where fuel is
the distance walked.

The browser and the server each carry their own copy of the route optimizer.
Both copies do the same four things:

- index the cells of each label in row-major order;
- pick the first label to visit (label 2 when (1,1) already holds a 1);
- fill a layered dynamic-programming table, breaking ties towards the first
  index that reaches the minimum;
- backtrack from the cheapest treasure cell and turn the path into steps.

The browser also has:

- a parameter and grid validator;
- a parser from text to grid;
- the route-animation state machine;
- the small grid helpers of the input panel.

The server has its own, weaker request validator. It also stores the route
and its fuel.

This project models all of that in Dafny:

- The optimizer is modelled once, in `RouteDp`: specification functions
  (`Dp`, `TracePath`, `StepsOf`, `RouteSteps`) and the loop methods that are
  proved to compute them.
- `Algorithm` is the browser copy and `Service` is the server copy. Both are
  built on `RouteDp`.
- The distance is a parameter `dist: (Pos, Pos) -> real`. The properties
  that need it assume the predicate `IsDistance`: non-negative, symmetric, and
  zero exactly on equal cells.
- The client and server validators are modelled separately. Module `Drift`
  states where they disagree, with concrete grids.

Modules, by file:

- `wrappers.dfy` — `Option` and `Result`.
- `types.dfy` — positions, steps, game state and DTOs, with their conversions (frontend/src/types/index.ts).
- `chest_index.dfy` — the row-major chest index shared by both optimizers and the check for a missing label.
- `route_dp.dfy` — the layered DP, the backtrack, the step construction and the fuel.
- `algorithm.dfy` — `calculatePath`, `createGameState`, `findLargestSquareFactor`, `isLatex`.
- `service.dfy` — the server's validator, `FindOptimalPath` and the fuel stored by save and update.
- `js_text.dfy` — the JavaScript string operations the parser relies on: `trim`, `split`, `join`, `parseInt`.
- `validation.dfy` — `validateParams`, `validateMatrix`, `parseMatrixFromText`, `createEmptyMatrix`.
- `animation.dfy` — the `useAnimation` hook as a class.
- `manual_grid.dfy`, `text_area.dfy`, `input_panel.dfy` — the input panel components.
- `drift.dfy` — how the client and the server relate.

## Model

| member | source | states |
|---|---|---|
| ChestIndex.RowOccMembership | frontend/src/utils/algorithm.ts:25-34 | a cell of one row is listed for label c iff it is in that row, 1-indexed, and holds c |
| ChestIndex.RowOccSorted | frontend/src/utils/algorithm.ts:27-34 | the cells listed for one row are in that row and in strictly increasing column order |
| ChestIndex.GridOccMembership | frontend/src/utils/algorithm.ts:23-36 | a position is listed for label c iff it is a 1-indexed cell of the grid that holds c |
| ChestIndex.GridOccRowMajor | frontend/src/utils/algorithm.ts:23-36 | listed positions lie inside the grid and are strictly increasing in row-major order, so each one appears once |
| ChestIndex.FirstIsRowMajorFirst | frontend/src/utils/algorithm.ts:200-208 | the first listed cell of a label comes before every other cell holding that label |
| ChestIndex.FindChestPositions | frontend/src/utils/algorithm.ts:14-39 | the nested scan yields a list for exactly the labels 1..p, each the row-major list of 1-indexed cells holding that label; labels outside 1..p are ignored (the server's scan, PirateTreasureService.cs lines 161-185, pre-creates the same lists and fills them the same way) |
| ChestIndex.FirstMissing | frontend/src/utils/algorithm.ts:53-58 | None means every label 1..p has a cell; Some(c) means c is in 1..p, has no cell, and every smaller label has one |
| ChestIndex.FindMissingChest | backend/PirateTreasure/PirateTreasure/Services/PirateTreasureService.cs:203-209 | the loop returns the smallest label 1..p with no cell, or None |
| RouteDp.FirstArgMin | frontend/src/utils/algorithm.ts:108-118 | the index is in range and attains the minimum; every earlier index is strictly larger (the strict-`<` first minimum) |
| RouteDp.Dp | frontend/src/utils/algorithm.ts:87-125 | each DP layer has one entry per cell of its label |
| RouteDp.DpRecurrence | frontend/src/utils/algorithm.ts:87-125 | first layer: the distance from (1,1) with no back-link; later layers: the back-link names the previous label and the first index minimising previous cost plus distance, and the cost is that minimum |
| RouteDp.TracePath | frontend/src/utils/algorithm.ts:139-152 | backtracking from a cell of label k gives one visit per label s..k, in increasing order, ending at that cell |
| RouteDp.DpAttained | frontend/src/utils/algorithm.ts:97-152 | the back-links form a chain through labels s..k, and the DP cost is that chain's route cost from (1,1) |
| RouteDp.DpMinimal | frontend/src/utils/algorithm.ts:97-125 | no choice of one cell per label s..k ending at a given cell is cheaper than the DP cost of that cell |
| RouteDp.DpMinimalFirst | frontend/src/utils/algorithm.ts:87-95 | a chain of a single cell costs exactly that cell's first-layer DP entry, its distance from (1,1) |
| RouteDp.DpMinimalStep | frontend/src/utils/algorithm.ts:104-121 | when a chain's prefix costs at least its end's DP entry, the whole chain costs at least the DP entry of its last cell |
| RouteDp.Fuel | frontend/src/utils/algorithm.ts:183-185 | no steps cost 0, and steps with non-negative distances cost at least 0 |
| RouteDp.StepsFuel | frontend/src/utils/algorithm.ts:154-185 | for a distance, the fuel of the built steps (sum of distances) equals the route cost of the visited cells; skipped coincident steps cost nothing |
| RouteDp.StepsChained | frontend/src/utils/algorithm.ts:154-177 | the first step leaves from (1,1), each step leaves from the previous step's destination, no step stays put, each distance is dist(from, to) |
| RouteDp.StepsChests | frontend/src/utils/algorithm.ts:154-177 | each step's chest number is in the visited label range, its destination is a cell of that label, and chest numbers strictly increase |
| RouteDp.StepsNoSkip | frontend/src/utils/algorithm.ts:158-175 | when no visit lands where the pirate stands, there is one step per visit, with that visit's label and cell |
| RouteDp.BestFinal | frontend/src/utils/algorithm.ts:127-137 | the chosen treasure index is a cell of label p |
| RouteDp.RouteOptimal | frontend/src/utils/algorithm.ts:127-185 | the route's fuel equals the DP cost of the chosen treasure cell, and is at most the cost of every choice of one cell per label s..p starting from (1,1) |
| RouteDp.RouteShape | backend/PirateTreasure/PirateTreasure/Services/PirateTreasureService.cs:300-341 | the route starts at (1,1), is chained, never stays put, lands on cells of its labels, and has strictly increasing chest numbers |
| RouteDp.RouteChained | backend/PirateTreasure/PirateTreasure/Services/PirateTreasureService.cs:315-341 | the route starts at (1,1), each step leaves from where the previous one arrived, none stays put, and each distance is dist(from, to) |
| RouteDp.RouteChests | backend/PirateTreasure/PirateTreasure/Services/PirateTreasureService.cs:300-341 | the route's chest numbers lie in s..p and strictly increase, and each step lands on a cell of its chest number |
| RouteDp.ChainFuelBound | frontend/src/utils/algorithm.ts:127-185 | the route's fuel is at most the cost of any one given choice of one cell per label s..p |
| RouteDp.Reversed | frontend/src/utils/algorithm.ts:152 | the reversal has the same length and the elements in reverse order |
| RouteDp.FirstLayerOf | frontend/src/utils/algorithm.ts:87-95 | the loop builds the first DP layer: distance from (1,1), no back-link |
| RouteDp.BestPredecessor | backend/PirateTreasure/PirateTreasure/Services/PirateTreasureService.cs:263-276 | the inner loop (minimum starting at "no candidate", strict `<`) returns the first minimising predecessor and its cost |
| RouteDp.NextLayerOf | frontend/src/utils/algorithm.ts:104-121 | builds the next layer, one relaxed entry per cell |
| RouteDp.FillDp | backend/PirateTreasure/PirateTreasure/Services/PirateTreasureService.cs:240-283 | the table has exactly the labels s..p, each the specified layer |
| RouteDp.DpMapSpec | backend/PirateTreasure/PirateTreasure/Services/PirateTreasureService.cs:240-283 | the table built label by label has exactly the keys s..k, each holding the specified DP layer |
| RouteDp.BestFinalIndex | backend/PirateTreasure/PirateTreasure/Services/PirateTreasureService.cs:286-297 | the first minimum of the final layer's costs |
| RouteDp.Backtrack | backend/PirateTreasure/PirateTreasure/Services/PirateTreasureService.cs:300-313 | the while loop plus reversal yields exactly the traced back-link path in forward order |
| RouteDp.BuildSteps | backend/PirateTreasure/PirateTreasure/Services/PirateTreasureService.cs:315-341 | the step loop with its moving `from` equals the step specification, skipping coincident positions |
| RouteDp.OptimalSteps | frontend/src/utils/algorithm.ts:87-177 | the whole DP, selection, backtrack and step pipeline computes the specified route |
| Algorithm.StartChest | frontend/src/utils/algorithm.ts:64-76 | the first label is 2 iff cell (1,1) exists and holds 1, otherwise 1 |
| Algorithm.CalculatePath | frontend/src/utils/algorithm.ts:49-178 | the client's calculatePath returns exactly the client route specification, error cases included |
| Algorithm.ClientRouteOptimal | frontend/src/utils/algorithm.ts:49-185 | a successful route is no more expensive than any walk from (1,1) through one grid cell of each label from the start label to p |
| Algorithm.ClientRouteRuns | frontend/src/utils/algorithm.ts:53-81 | a successful route whose start label is at most p is the optimizer's route over an index where every label from the start to p has a cell |
| Algorithm.GridTourBound | frontend/src/utils/algorithm.ts:87-185 | over a grid's index, the optimizer's fuel is at most the length of any walk from (1,1) through one grid cell of each label s..p in order |
| Algorithm.GridRouteShape | frontend/src/utils/algorithm.ts:154-177 | on a grid index no visit lands where the pirate stands, so every visit yields a step |
| Algorithm.GridRouteSteps | frontend/src/utils/algorithm.ts:154-177 | over a grid's index the route has one step per label s..p; step t has label s+t and lands on a grid cell holding s+t |
| Algorithm.ClientRouteOkReady | frontend/src/utils/algorithm.ts:53-58 | a successful route implies a non-empty grid where every label 1..p occurs |
| Algorithm.ClientRouteShape | frontend/src/utils/algorithm.ts:139-177 | a successful route has one step per label from the start label to p, in order, chained from (1,1), landing on cells of those labels |
| Algorithm.ClientRouteErrors | frontend/src/utils/algorithm.ts:53-81 | the route fails iff some label 1..p is missing or there is no start cell; the start-cell failure needs an empty grid; a missing-label error names the smallest missing label |
| Algorithm.ClientRouteTrivial | frontend/src/utils/algorithm.ts:70-81 | when the start label exceeds p the route is the empty step list |
| Algorithm.FirstChestPositions | frontend/src/utils/algorithm.ts:200-208 | the game state's chest map has the labels 1..p with a non-empty list, each mapped to its first listed cell |
| Algorithm.CreateGameState | frontend/src/utils/algorithm.ts:190-219 | errors pass through; on success the state holds the route, its fuel, the grid parameters and the first-cell chest map |
| Algorithm.GameStateChestIsFirst | frontend/src/utils/algorithm.ts:200-208 | the chest shown for a label is the row-major first cell carrying it |
| Algorithm.FloorSqrt | frontend/src/utils/algorithm.ts:234 | the integer square root: r² ≤ n < (r+1)² |
| Algorithm.FindLargestSquareFactor | frontend/src/utils/algorithm.ts:231-242 | 1 for n ≤ 0; otherwise a perfect square dividing n and at least every square divisor of n |
| Algorithm.IncludesAt | frontend/src/utils/algorithm.ts:304-306 | the substring search succeeds iff the substring occurs at some index |
| Algorithm.IsLatex | frontend/src/utils/algorithm.ts:304-306 | the text counts as LaTeX exactly when `\sqrt` occurs at some offset |
| Algorithm.SqrtFormIsLatex | frontend/src/utils/algorithm.ts:304-306 | every `a\sqrt{b}` form counts as LaTeX |
| Algorithm.NoBackslashNotLatex | frontend/src/utils/algorithm.ts:304-306 | text without a backslash never counts as LaTeX |
| Types.ConvertStepDtoToStep | frontend/src/types/index.ts:166-173 | from, to, chest number and distance are copied unchanged |
| Types.LastStepOf | frontend/src/types/index.ts:180-183 | the index of the last step with a given chest number, or None when no step has it |
| Types.ConvertDetailToGameState | frontend/src/types/index.ts:176-194 | steps keep length and order; the chest map's keys are exactly the chest numbers in the steps, each mapped to the last such step's destination; the grid fields are copied |
| Service.ValidateMapRequest | backend/PirateTreasure/PirateTreasure/Services/PirateTreasureService.cs:406-432 | each failure is reported exactly when every earlier guard passes and its own fails, in the order: no matrix or empty first row, n or m outside 1..500, row count ≠ n, first-row width ≠ m, p outside 1..n*m; no failure iff the request is accepted |
| Service.FindOptimalPath | backend/PirateTreasure/PirateTreasure/Services/PirateTreasureService.cs:198-342 | the server's path search equals the server route specification: a missing label, a read of an absent (1,1), or the shared DP route |
| Service.SavePirateTreasure | backend/PirateTreasure/PirateTreasure/Services/PirateTreasureService.cs:60-83 | validation failure or route failure is reported; otherwise the stored entity holds a route and a total fuel equal to the sum of its step distances |
| Service.UpdatePirateTreasure | backend/PirateTreasure/PirateTreasure/Services/PirateTreasureService.cs:352-381 | a missing record yields nothing; then validation (identical to save, lines 440-466) and route failures; otherwise the record is updated with the new route and its fuel sum |
| Service.StepToDto | backend/PirateTreasure/PirateTreasure/Services/PirateTreasureService.cs:123-129 | converting a step to its DTO and back gives the step |
| Service.StepDtoRoundTrip | frontend/src/types/index.ts:166-173 | converting a DTO to a step and back gives the DTO |
| Service.DetailOf | backend/PirateTreasure/PirateTreasure/Services/PirateTreasureService.cs:110-143 | the detail DTO carries the entity's route in order, its grid fields and its fuel |
| Service.AcceptedNeverFaults | backend/PirateTreasure/PirateTreasure/Services/PirateTreasureService.cs:212-234 | an accepted request never reads an absent (1,1); its only route failure is a missing label |
| Service.StoredFuelOptimal | backend/PirateTreasure/PirateTreasure/Services/PirateTreasureService.cs:65-66 | the stored fuel is at most the cost of every walk through one cell per label |
| JsText.TrimStart | frontend/src/utils/validation.ts:111-115 | the result is a suffix of the input, not starting with white space, and every dropped leading character is white space |
| JsText.TrimEnd | frontend/src/utils/validation.ts:111-115 | the result is a prefix of the input, not ending with white space, and every dropped trailing character is white space |
| JsText.TrimEmpty | frontend/src/utils/validation.ts:115 | a line trims to "" iff it is all white space |
| JsText.SplitJoin | frontend/src/utils/validation.ts:113 | splitting a join on a separator absent from the parts gives the parts back |
| JsText.SplitValuesJoin | frontend/src/utils/validation.ts:127-128 | splitting space-joined tokens without separators gives the tokens back |
| JsText.LeadingDigits | frontend/src/utils/validation.ts:129 | the longest all-digit prefix |
| JsText.ParseInt | frontend/src/utils/validation.ts:129 | a number is produced iff some digits follow the optional sign after leading white space |
| JsText.NatToStringValue | frontend/src/components/InputPanel/TextAreaInput.tsx:61 | the decimal text of n reads back as n |
| JsText.ParseIntNatToString | frontend/src/utils/validation.ts:129 | parseInt of the decimal text of n is n |
| Validation.ValidateParams | frontend/src/utils/validation.ts:6-34 | valid iff no error iff n, m in 1..500 and 1 ≤ p ≤ n*m; each error is present iff its condition holds; the p > n*m error only when n, m > 0 |
| Validation.WidthErrorsIff | frontend/src/utils/validation.ts:49-57 | no width error iff every row has width m; each error names a row, 1-indexed, that has the wrong width |
| Validation.RowCellErrorsIff | frontend/src/utils/validation.ts:62-74 | no error for a row iff its cells are all in 1..p; each error names an out-of-range cell and its value |
| Validation.CellErrorsIff | frontend/src/utils/validation.ts:62-74 | no cell error iff all cells are in 1..p; each error names an out-of-range cell |
| Validation.CellErrorsNone | frontend/src/utils/validation.ts:62-74 | there is no cell error iff every cell is in 1..p |
| Validation.CellErrorsSound | frontend/src/utils/validation.ts:62-74 | each cell error names, 1-indexed, a cell of the grid whose value is outside 1..p, with that value |
| Validation.MissingChestErrorsIff | frontend/src/utils/validation.ts:78-85 | no missing-label error iff each label 1..k below p occurs; each error names an absent label |
| Validation.MatrixErrorsIff | frontend/src/utils/validation.ts:39-99 | the matrix passes iff it has n rows of width m, cells in 1..p, every label below p, and exactly one treasure |
| Validation.MatrixErrorsEarlyExits | frontend/src/utils/validation.ts:43-57 | a row-count mismatch is the single error; otherwise wrong widths are the only errors; otherwise cell, missing-label and treasure errors in that order |
| Validation.CheckRow | frontend/src/utils/validation.ts:62-74 | one row's loop appends its cell errors and raises each in-range label's count by its occurrences |
| Validation.CheckWidths | frontend/src/utils/validation.ts:49-57 | the width loop returns exactly the width errors, one per row of the wrong width, in row order |
| Validation.CountCells | frontend/src/utils/validation.ts:62-74 | the nested counting loop returns the cell errors and a count map that gives each label in 1..p its number of cells and every other label 0 |
| Validation.CheckMissing | frontend/src/utils/validation.ts:78-85 | the presence loop appends, in increasing order, one message for each label 1..p-1 that was counted zero times |
| Validation.MissingChestStep | frontend/src/utils/validation.ts:79-84 | a label counted zero times appends its message; any other count appends nothing |
| Validation.ValidateMatrix | frontend/src/utils/validation.ts:39-99 | the imperative validator returns exactly the specified error list, and is valid iff it is empty |
| Validation.NonBlank | frontend/src/utils/validation.ts:115 | only lines that are not blank are kept, never more lines than given; a single line is kept exactly when it is not blank |
| Validation.NonBlankConcat | frontend/src/utils/validation.ts:115 | filtering distributes over concatenation, so with the one-line case every non-blank line is kept, in order |
| Validation.ParseRow | frontend/src/utils/validation.ts:126-146 | a row parses iff it has m values, all numbers; the count error is reported before the not-a-number error |
| Validation.ParseMatrixFromText | frontend/src/utils/validation.ts:105-155 | the early-return loop returns exactly the parser specification |
| Validation.ParseLines | frontend/src/utils/validation.ts:123-148 | the line loop, returning at the first bad line, yields exactly the row-by-row read of the lines' values |
| Validation.ParseLineStep | frontend/src/utils/validation.ts:131-145 | after lines that parsed, a wrong value count or a NaN decides the whole read with that line's error; a good line extends the rows by its numbers |
| Validation.ParseRowsFirstError | frontend/src/utils/validation.ts:126-146 | a failing parse reports the error of the first bad line, and all earlier lines parse |
| Validation.FirstBadRow | frontend/src/utils/validation.ts:125-146 | a failed read has a first line that is not m numbers, with every earlier line m numbers; its error is that line's count mismatch or not-a-number |
| Validation.ParseMatrixShape | frontend/src/utils/validation.ts:116-149 | a successful parse has n rows of m numbers, each row being the values of its non-blank line |
| Validation.ParseMatrixError | frontend/src/utils/validation.ts:116-143 | a wrong line count is reported first; otherwise a failure is the first bad line's error |
| Validation.ParseGridText | frontend/src/utils/validation.ts:105-155 | writing an n×m grid of naturals as space- and newline-separated text and parsing it gives the grid back |
| Validation.LinesOfJoin | frontend/src/utils/validation.ts:111-114 | lines joined by newlines, each starting and ending with a digit, split back into the same lines |
| Validation.GridTextLines | frontend/src/utils/validation.ts:111-114 | a grid of naturals with non-empty rows, written one row per line, splits into exactly its row texts |
| Validation.CreateEmptyMatrix | frontend/src/utils/validation.ts:210-214 | n rows of m ones |
| Validation.EmptyMatrixValid | frontend/src/utils/validation.ts:210-214 | the all-ones grid passes the matrix check iff p = 1 and it has a single cell |
| AnimationHook.WalkedCount | frontend/src/hooks/useAnimation.ts:41-53 | none walked before the start, k+1 for a step in range, all of them beyond |
| AnimationHook.WalkedViewClosed | frontend/src/hooks/useAnimation.ts:36-64 | after t steps the pirate is at step t-1's destination (or (1,1)), completed is 0..t-1, visited is (1,1) plus the walked destinations |
| AnimationHook.PirateOnVisitedCell | frontend/src/hooks/useAnimation.ts:36-64 | the pirate always stands on a visited cell |
| AnimationHook.Animation.constructor | frontend/src/hooks/useAnimation.ts:18-27 | not playing, index -1, default speed, pirate at (1,1), only (1,1) visited, nothing completed |
| AnimationHook.Animation.CalculateStateForStep | frontend/src/hooks/useAnimation.ts:36-64 | the loop yields the view of the given cursor |
| AnimationHook.Animation.Play | frontend/src/hooks/useAnimation.ts:103-115 | at or past the last step restarts from the initial view keeping the speed; otherwise resumes; always playing and index in -1..len-1 |
| AnimationHook.Animation.Pause | frontend/src/hooks/useAnimation.ts:117-119 | stops playing, nothing else changes |
| AnimationHook.Animation.StepForward | frontend/src/hooks/useAnimation.ts:121-135 | nothing at index ≥ len-1; otherwise one step on, stopped, showing the new cursor |
| AnimationHook.Animation.StepBack | frontend/src/hooks/useAnimation.ts:137-151 | nothing at index < 0; otherwise one step back, stopped, showing the new cursor |
| AnimationHook.Animation.Reset | frontend/src/hooks/useAnimation.ts:153-158 | the initial state with the old speed |
| AnimationHook.Animation.SetSpeed | frontend/src/hooks/useAnimation.ts:160-162 | only the speed changes |
| AnimationHook.Animation.GoToStep | frontend/src/hooks/useAnimation.ts:164-177 | an index outside -1..len-1 is ignored; otherwise jumps there, stopped |
| AnimationHook.Animation.Tick | frontend/src/hooks/useAnimation.ts:70-87 | past the last step playing stops; otherwise the cursor advances; the index stays in -1..len-1 |
| ManualGrid.EnteredNumber | frontend/src/components/InputPanel/ManualGridInput.tsx:22 | an unparsable or zero entry reads as 1, any other parsed number is kept as is, so the number is never 0 |
| ManualGrid.ClampedValue | frontend/src/components/InputPanel/ManualGridInput.tsx:22-23 | for p ≥ 1 the written value is in 1..p: in-range kept, too large becomes p, negative becomes 1 |
| ManualGrid.SetCell | frontend/src/components/InputPanel/ManualGridInput.tsx:25-27 | same shape; only cell (row, col) changes, to the given value |
| ManualGrid.OutOfRangeEditUnchanged | frontend/src/components/InputPanel/ManualGridInput.tsx:25-27 | editing a cell outside the grid leaves the grid unchanged |
| ManualGrid.EditKeepsRange | frontend/src/components/InputPanel/ManualGridInput.tsx:21-30 | with p ≥ 1 an edit keeps every cell of a 1..p grid in 1..p |
| ManualGrid.EditIdempotent | frontend/src/components/InputPanel/ManualGridInput.tsx:21-30 | repeating the same edit changes nothing more |
| TextArea.SampleValue | frontend/src/components/InputPanel/TextAreaInput.tsx:59 | the sample value is ((i*m + j) mod 9) + 1, always in 1..9 |
| TextArea.PreviewRows | frontend/src/components/InputPanel/TextAreaInput.tsx:56 | min(n, 5) rows |
| TextArea.GeneratePlaceholder | frontend/src/components/InputPanel/TextAreaInput.tsx:50-69 | the nested loops give the placeholder: the prompt when n or m is 0, else min(n,5) rows of m samples, joined by newlines, with "..." iff n > 5 |
| TextArea.SampleRowOf | frontend/src/components/InputPanel/TextAreaInput.tsx:57-60 | the inner loop builds the m sample values of row i |
| TextArea.EllipsisLine | frontend/src/components/InputPanel/TextAreaInput.tsx:64-66 | above 5 rows there are 6 lines and the last is "..."; otherwise there is one line per row and none is "..." |
| TextArea.PlaceholderParses | frontend/src/components/InputPanel/TextAreaInput.tsx:50-69 | for 1 ≤ n ≤ 5 the placeholder parses back into the sample grid |
| InputForm.UpdateMatrixForParams | frontend/src/components/InputPanel/InputPanel.tsx:45-58 | the nested loops give the previous grid for n ≤ 0 or m ≤ 0, else the resized grid |
| InputForm.ResizedShape | frontend/src/components/InputPanel/InputPanel.tsx:48-57 | for positive n and m, n rows of m cells |
| InputForm.ResizedCells | frontend/src/components/InputPanel/InputPanel.tsx:52-53 | a cell keeps its old value when that cell existed and held a non-zero value at most p, and is 1 in every other case |
| InputForm.ResizedIdempotent | frontend/src/components/InputPanel/InputPanel.tsx:45-58 | resizing twice equals resizing once |
| InputForm.ResizedInRange | frontend/src/components/InputPanel/InputPanel.tsx:52-53 | from positive values and p ≥ 1 every cell ends in 1..p |
| InputForm.ResizedFixpoint | frontend/src/components/InputPanel/InputPanel.tsx:45-58 | an n×m grid with values in 1..p is unchanged |
| InputForm.InputPanel.constructor | frontend/src/components/InputPanel/InputPanel.tsx:40-42 | the panel starts with 3, 3, 3, an all-ones 3×3 grid, an empty text box and no error |
| InputForm.InputPanel.HandleParamsChange | frontend/src/components/InputPanel/InputPanel.tsx:60-65 | parameters set; the grid is resized only for positive n and m |
| InputForm.InputPanel.HandleModeChange | frontend/src/components/InputPanel/InputPanel.tsx:67-70 | mode set and error cleared; nothing else changes |
| InputForm.InputPanel.HandleCellChange | frontend/src/components/InputPanel/ManualGridInput.tsx:21-30 | the grid becomes the clamped single-cell edit |
| InputForm.InputPanel.HandleCalculate | frontend/src/components/InputPanel/InputPanel.tsx:72-100 | nothing is submitted when the parameters are invalid or the text does not parse; invalid parameters record exactly the validator's messages (each present iff its condition holds), a parse failure its error; in text mode the parsed grid is submitted, in manual and random mode the shown grid |
| InputForm.InputPanel.HandleTextChange | frontend/src/components/InputPanel/InputPanel.tsx:157-158 | the text box holds the new text and nothing else changes |
| InputForm.InputPanel.HandleReset | frontend/src/components/InputPanel/InputPanel.tsx:102-108 | 3, 3, 3, an all-ones 3×3 grid, empty text, no error |
| InputForm.InputPanel.HandleRandomGenerate | frontend/src/components/InputPanel/InputPanel.tsx:110-113 | the generated grid is shown in manual mode |
| Drift.ClientValidServerAccepts | backend/PirateTreasure/PirateTreasure/Services/PirateTreasureService.cs:406-432 | a grid the browser accepts is accepted by the server |
| Drift.RoutesAgree | backend/PirateTreasure/PirateTreasure/Services/PirateTreasureService.cs:198-342 | with a non-empty first row, client and server succeed together with the same steps, and name the same missing label |
| Drift.ValidGridRoutes | frontend/src/utils/algorithm.ts:49-178 | on a browser-valid grid both copies find a route, and the same one |
| Drift.EmptyFirstRowDrift | backend/PirateTreasure/PirateTreasure/Services/PirateTreasureService.cs:212-228 | with an empty first row the client routes from label 1 while the server faults reading (1,1) |
| Drift.EmptyFirstRowExample | frontend/src/utils/algorithm.ts:64-76 | the grid [[], [1]] with p = 1 shows that disagreement |
| Drift.RaggedGridDrift | backend/PirateTreasure/PirateTreasure/Services/PirateTreasureService.cs:423-426 | the server accepts [[1,2],[3]] as 2×2 although the browser reports row 2's width |
| Drift.DuplicateTreasureDrift | frontend/src/utils/validation.ts:88-93 | the server accepts [[1,2,2]] with p = 2 although the browser reports two treasures |

## Left out

- Floating point: the Euclidean distance (`Math.sqrt`, `Math.Pow`) is an abstract distance parameter. `formatFuel`, `simplifySqrt` and `isInteger`, whose epsilon tests only make sense on doubles, are not modelled. `isLatex` is modelled.
- Numbers are integers. The form's `parseInt(...) || 0` and the cells always give integers or NaN, so the `Number.isInteger` checks in validation.ts always pass. A NaN cell cannot be written: the manual editor maps NaN to 1, and the parser rejects NaN values.
- Validation.ValidateParams: the error messages are constructors, not Vietnamese strings. `validateMatrix` and the parser likewise report constructors.
- ParseError: the `catch` branch of parseMatrixFromText is unreachable in the model, since no step of it can throw on a string.
- JsText.ParseInt: reads an unbounded decimal integer, with no loss of precision for long digit strings. White space (`trim`, `\s` in the value splitter, the leading white space `parseInt` skips) is the full ECMAScript WhiteSpace and LineTerminator set, so no `\s` character is left out.
- Persistence and transport: the repository, the controller, JSON (de)serialisation of `map_data` and `optimal_path`, and the GetAll, GetById and Delete I/O. DetailOf models only the entity-to-DTO conversion of GetById.
- Save and update: the new record's `Guid` and the clock are parameters (`newId`, `now`).
- Service.UpdatePirateTreasure: returns the updated entity rather than re-reading it from the database.
- Randomness: `generateRandomMatrix`. The panel receives the generated grid as a parameter.
- Timers: the auto-play `setInterval` effect. Only its per-tick transition (`Animation.Tick`) is modelled.
- React rendering and the `onCalculate`/`onReset` callbacks: `HandleCalculate` returns the grid it would submit.
- AnimationHook visited cells: the hook stores "row,col" strings in a `Set`; the model stores a set of positions.
- Browser route: the start-label rule reads `matrix[0][0]`. When the first row is empty it reads `undefined` and starts at label 1. When the grid is empty and p < 1 the read throws; the model returns `NoStartCell` for that case.

