# HMM robot localisation in Dafny

This project models `HMMPredictor` together with its two value classes, `Movement` and `Reading`. `HMMPredictor` is the engine of a robot-localisation simulator: a robot moves on a square grid of `rows x cols` cells, and in each cell it faces one of four headings (North, East, South, West). The engine holds these parts:

- the transition matrix `T`, with one row per state (cell, heading);
- one observation row per sensor reading (each cell, and "nothing" last) in `O`;
- the belief `f` over states;
- the true pose `pos`;
- the last reading `sens`.

One `update` makes three calls:

1. `move` samples the next pose from the `T` row of the current one.
2. `getSensorReading` samples a reading from the `O` column of the new pose.
3. `posEstimate` runs one step of the forward filter: `f := normalise(O_r * (T^T f))`.

The model is split into these modules:

- `Indexing`: `mapT`, `mapO` and the `move*`/`face*` index helpers, with their range, decode, encode and injectivity facts.
- `Transition`: the rule that `T` follows, written once as a function (`Expected`/`ExpectedRow`) from the legal moves of a cell. It comes with:
  - lemmas for the row totals;
  - the link between positive entries and legal steps;
  - lemmas saying that each hand-written corner, wall or interior row is the rule's row.
- `Observation`: the rule that `O` follows (`CellWeight`, `Nothing`, `OEntry`). It comes with symmetry, the counting facts behind the "nothing" row, and a proof that each state's reading distribution sums to 1.
- `Moves`, `Readings`: the `Movement` and `Reading` value classes as datatypes.
- `Sampling`: the accumulate-until-the-draw-is-reached choice (`ChooseIndex`), specified by `IsChoice`, and the candidate lists of `move` and `getSensorReading`.
- `Filter`: one forward step as functions on sequences (`Forward`, `Scale`), and what it preserves.
- `Sums`: sums and counts, plus the block sums that `getCurrentProb` reads.
- `Scratch`: the scratch row with two, three or four entries written.
- `Predictor`: the class `HMMPredictor`. Its fields are the arrays `T`, `O` and `f` and the sequences `pos` and `sens`. The generators, samplers and the filter are methods that write those arrays in place, each proved against the rule functions above.

The object invariant `Valid()` combines several facts:

- `T` and `O` hold the rules.
- The pose and the reading are in range.
- `f` is a distribution.
- `f` gives the true pose positive mass.

The constructor establishes `Valid()` and `Update` preserves it. In particular, the total that `posEstimate` divides by is never zero along a run of the simulator.

The grid must be square and at least 2 x 2 (`SquareGrid`). There are two reasons:

- The left- and right-column loops of `generateWalls` are bounded by `cols` (`src/model/HMMPredictor.java:232`, `:253`).
- A 1 x 1 grid makes `moveEast(0, 0)` index past the end of a row.

## Model

| member | source | states |
|---|---|---|
| Indexing.MapT | src/model/HMMPredictor.java:77-79 | the heading is the index mod 4 and the cell's row-major index is the index div 4 |
| Indexing.MapTRange | src/model/HMMPredictor.java:77-79 | a state in the grid maps into [0, rows*cols*4) |
| Indexing.MapTDecode | src/model/HMMPredictor.java:77-79 | row, column and heading are recovered from the index |
| Indexing.MapTEncode | src/model/HMMPredictor.java:77-79 | every index in [0, rows*cols*4) is mapT of a state in the grid, so the range is exact |
| Indexing.MapTInjective | src/model/HMMPredictor.java:77-79 | two states have the same index if and only if they are equal |
| Indexing.MapOSlots | src/model/HMMPredictor.java:81-86 | a negative coordinate selects the "nothing" slot rows*cols; a cell in the grid gets its row-major index in [0, rows*cols), which decodes to its row and column |
| Indexing.CellRange | src/model/HMMPredictor.java:85 | the row-major index of a cell in the grid is below rows*cols |
| Indexing.CellDecode | src/model/HMMPredictor.java:85 | row and column are recovered from a cell index |
| Indexing.CellEncode | src/model/HMMPredictor.java:85 | every cell index below rows*cols is the index of a cell in the grid |
| Indexing.MoveNorth | src/model/HMMPredictor.java:88-90 | equals mapT(row - 1, col, 0): the northern neighbour, facing North |
| Indexing.MoveEast | src/model/HMMPredictor.java:91-93 | equals mapT(row, col + 1, 1) |
| Indexing.MoveSouth | src/model/HMMPredictor.java:94-96 | equals mapT(row + 1, col, 2) |
| Indexing.MoveWest | src/model/HMMPredictor.java:97-99 | equals mapT(row, col - 1, 3) |
| Indexing.FaceNorth | src/model/HMMPredictor.java:100-102 | the state of the cell with heading 0 |
| Indexing.FaceEast | src/model/HMMPredictor.java:103-105 | the state of the cell with heading 1 |
| Indexing.FaceSouth | src/model/HMMPredictor.java:106-108 | the state of the cell with heading 2 |
| Indexing.FaceWest | src/model/HMMPredictor.java:109-111 | the state of the cell with heading 3 |
| Transition.Target | src/model/HMMPredictor.java:88-99 | the move in direction d lands on the neighbour in that direction, facing d, inside the grid when d is legal |
| Transition.LegalCountByPlace | src/model/HMMPredictor.java:113-300 | corners have two legal moves, other wall cells three, interior cells four |
| Transition.RowTotal | src/model/HMMPredictor.java:113-300 | every T row sums to 1, except a non-corner wall cell facing the wall, whose three 0.33 entries sum to 0.99 |
| Transition.ExpectedRange | src/model/HMMPredictor.java:113-300 | every T entry lies in [0, 0.7] and is positive exactly on the targets of legal moves |
| Transition.ExpectedAt | src/model/HMMPredictor.java:113-300 | the entry from (i, j, h) to (i2, j2, h2) is the weight of direction h2 when (i2, j2) is the neighbour in that legal direction, and 0 otherwise |
| Transition.PositiveIsStep | src/model/HMMPredictor.java:113-300 | an entry is positive if and only if it is one legal step that ends facing the direction moved |
| Transition.StepIsPositive | src/model/HMMPredictor.java:113-300 | a legal step from a state has a positive T entry, by flat indices |
| Transition.SparseRowIsExpected | src/model/HMMPredictor.java:113-300 | a row with each legal move's weight at its target and 0 elsewhere is the rule's row |
| Transition.LaidEntries | src/model/HMMPredictor.java:113-300 | after laying the first d legal weights on a zero row, each target holds its weight or 0, and non-targets hold 0 |
| Transition.LaidSum | src/model/HMMPredictor.java:113-300 | the laid row sums to the weights laid so far |
| Transition.TwoMoveRow | src/model/HMMPredictor.java:113-183 | in a corner, a zero row with the two legal weights written is the rule's row |
| Transition.ThreeMoveRow | src/model/HMMPredictor.java:184-270 | on a wall, a zero row with the three legal weights written is the rule's row |
| Transition.ThreeWeightsPlaced | src/model/HMMPredictor.java:184-270 | three weights written on distinct targets sit where the rule expects them |
| Transition.FourMoveRow | src/model/HMMPredictor.java:279-299 | in the interior, a zero row with the four weights written is the rule's row |
| Observation.CellWeightSymmetric | src/model/HMMPredictor.java:310-329 | the weight does not change when the reading cell and the robot's cell are swapped |
| Observation.CellWeightSelf | src/model/HMMPredictor.java:312-315 | the weight is 0.1 if and only if the two cells coincide |
| Observation.ReadingEntryAt | src/model/HMMPredictor.java:305-333 | the O entry of reading cell r for state (i, j, h) is the cell weight, the same for all four headings |
| Observation.ReadingRowBlocks | src/model/HMMPredictor.java:305-333 | the O row of a reading cell repeats the cell weights once per heading |
| Observation.CellWeightCounts | src/model/HMMPredictor.java:336-344 | around a cell: one 0.1, at most eight 0.05 and at most 24 entries of 0.05 or 0.025; "nothing" is 0.9 less those counts' weights, with the frequency over the state row divided by 4 |
| Observation.ColumnSumsToOne | src/model/HMMPredictor.java:302-345 | each state's rows*cols+1 observation entries sum to exactly 1 |
| Observation.NothingPositive | src/model/HMMPredictor.java:341 | the "nothing" entry is at least 0.1 |
| Observation.OEntryRange | src/model/HMMPredictor.java:302-345 | every O entry lies in [0, 0.9] |
| Moves.NewMovement | src/model/Movement.java:7-21 | relativeProb is 100 times the probability; getPos is [row, col, head] |
| Readings.NewReading | src/model/Reading.java:7-20 | relativeProb is 100 times the probability; getPos is [row, col], stored unchecked, so (-1, -1) comes back as given |
| Sampling.ChooseIndex | src/model/HMMPredictor.java:362-377 | the loop returns the index IsChoice names: 0 for a draw that is not positive, else the first index whose cumulative weight reaches the draw, or the last index when none does |
| Sampling.ChoiceUnique | src/model/HMMPredictor.java:369-377 | the choice rule picks at most one index, so the sampler is a function of the draw |
| Sampling.ChoiceInterval | src/model/HMMPredictor.java:369-377 | with positive weights, index x is chosen exactly when the draw lies in (prefix(x), prefix(x+1)], or beyond the total for the last index |
| Sampling.BeyondTotalTakesLast | src/model/HMMPredictor.java:369-377 | a draw beyond the total of the candidates' weights picks the last candidate; a wall cell facing the wall has weights totalling 99 (3 × 0.33 × 100), so draws in (99, 100] land there |
| Sampling.MoveCandidatesExact | src/model/HMMPredictor.java:352-360 | the move candidates are exactly the non-zero entries of the T row in row-major order: each carries its entry scaled by 100, targets strictly increase, and no non-zero entry is missed |
| Sampling.MoveCandidatesStep | src/model/HMMPredictor.java:354-358 | visiting state (i, j, h) appends its Movement exactly when its entry is non-zero |
| Sampling.CellCandidatesExact | src/model/HMMPredictor.java:386-393 | the reading candidates are exactly the cells with a non-zero O entry, in row-major order, each carrying its entry scaled by 100 |
| Sampling.CellCandidatesStep | src/model/HMMPredictor.java:387-392 | visiting cell (i, j) appends its Reading exactly when its entry is non-zero |
| Sampling.SensorCandidates | src/model/HMMPredictor.java:394-395 | the list is never empty and ends with "nothing" as (-1, -1), whatever its probability |
| Filter.InflowNonNegative | src/model/HMMPredictor.java:427-431 | with no negative inputs, newf[i] is not negative |
| Filter.InflowPositive | src/model/HMMPredictor.java:427-431 | one positive term T[s][i]*O_r[i]*f[s] makes newf[i] positive |
| Filter.ScaleSum | src/model/HMMPredictor.java:436-439 | multiplying every entry by alpha multiplies the total by alpha |
| Filter.Normalised | src/model/HMMPredictor.java:436-439 | scaling a non-negative vector with positive total by 1/total gives a distribution |
| Filter.NormalisedPositive | src/model/HMMPredictor.java:436-439 | normalising keeps positive entries positive |
| Filter.TColumnNonNegative | src/model/HMMPredictor.java:423 | no column of T under the rule has a negative entry |
| Filter.ForwardNonNegative | src/model/HMMPredictor.java:415-433 | from a belief with no negative entry, the message has none either |
| Filter.ForwardKeepsState | src/model/HMMPredictor.java:415-440 | if f gives mass to s, s steps to k and reading r is possible in k, then k keeps positive mass and the total is positive |
| Sums.Uniform | src/model/HMMPredictor.java:51-52 | n equal shares 1/n form a distribution |
| Sums.BlockSumsTotal | src/model/HMMPredictor.java:482-489 | the per-cell sums over the four headings add up to the total of f |
| Sums.BlockSumsDistribution | src/model/HMMPredictor.java:482-489 | the per-cell sums of a distribution form a distribution over cells |
| Predictor.MoveListSteps | src/model/HMMPredictor.java:347-360 | the candidate list of move is never empty, and every candidate is one legal step from the pose, facing the direction moved |
| Predictor.ReadingListSound | src/model/HMMPredictor.java:381-395 | every reading candidate is a cell at most two rows and columns away, or (-1, -1), and has a positive O entry for the pose |
| Predictor.HMMPredictor.constructor | src/model/HMMPredictor.java:39-61 | allocates fresh T, O and f, builds T and O by the rules, fills f with 1/(rows*cols*4), places the pose given, sets the reading to (0, 0) and establishes Valid() |
| Predictor.HMMPredictor.CopyRow | src/model/HMMPredictor.java:122 | System.arraycopy of the rule's row for (i, j, h) makes that T row the rule's row and keeps every finished row; the rows of other cells are unchanged |
| Predictor.HMMPredictor.CopyInto | src/model/HMMPredictor.java:122 | row dest of T becomes the given row; all other rows are unchanged |
| Predictor.HMMPredictor.CornerRows | src/model/HMMPredictor.java:117-133 | one corner block writes the rule's rows for all four headings and leaves the scratch row zero again when it clears it; the rows of other cells are unchanged |
| Predictor.HMMPredictor.CornerWallRows | src/model/HMMPredictor.java:121-123 | the two wall-facing headings get the 0.5/0.5 row; the rows of other cells are unchanged |
| Predictor.HMMPredictor.CornerMoveRows | src/model/HMMPredictor.java:125-133 | the two other headings get 0.7 forward and 0.3 lateral; the rows of other cells are unchanged |
| Predictor.HMMPredictor.GenerateCorners | src/model/HMMPredictor.java:113-183 | the four corner cells are done, finished rows stay finished, and every row outside the corner cells is unchanged |
| Predictor.HMMPredictor.WallRows | src/model/HMMPredictor.java:190-206 | one wall-loop body writes the rule's rows for all four headings and zeroes the scratch row again; the rows of other cells are unchanged |
| Predictor.HMMPredictor.WallFirstRows | src/model/HMMPredictor.java:191-196 | 0.33 on each legal move facing the wall, then 0.7 forward and 0.15 on the other two; the rows of other cells are unchanged |
| Predictor.HMMPredictor.WallLastRows | src/model/HMMPredictor.java:198-206 | the remaining two headings, then the scratch row is zero again; the rows of other cells are unchanged |
| Predictor.HMMPredictor.TopWall | src/model/HMMPredictor.java:188-207 | every non-corner cell of the top row is done; no other row of T changes |
| Predictor.HMMPredictor.BottomWall | src/model/HMMPredictor.java:209-228 | every non-corner cell of the bottom row is done; no other row of T changes |
| Predictor.HMMPredictor.LeftWall | src/model/HMMPredictor.java:230-249 | every non-corner cell of the left column is done; no other row of T changes |
| Predictor.HMMPredictor.RightWall | src/model/HMMPredictor.java:251-270 | every non-corner cell of the right column is done; no other row of T changes |
| Predictor.HMMPredictor.GenerateWalls | src/model/HMMPredictor.java:184-271 | all non-corner edge cells are done, finished rows stay finished, and every row outside those cells is unchanged |
| Predictor.HMMPredictor.MiddleRows | src/model/HMMPredictor.java:280-298 | an interior cell gets 0.7 forward and 0.1 on the three other moves for every heading; the scratch row is zero again; the rows of other cells are unchanged |
| Predictor.HMMPredictor.MiddleRowSouth | src/model/HMMPredictor.java:289-291 | the South-facing row of an interior cell is 0.7 south and 0.1 on the other three moves, rows already written stay, then the West row and the reset follow; the rows of other cells are unchanged |
| Predictor.HMMPredictor.MiddleRowWest | src/model/HMMPredictor.java:293-297 | the West-facing row of an interior cell is 0.7 west and 0.1 on the other three moves, so all four headings of the cell are done; the scratch row is zero again; the rows of other cells are unchanged |
| Predictor.HMMPredictor.ClearMoves | src/model/HMMPredictor.java:297 | setting the four move entries of an interior cell back to 0 gives back the all-zero scratch row the cell started from |
| Predictor.HMMPredictor.GenerateT | src/model/HMMPredictor.java:272-300 | every row of T is the rule's row |
| Predictor.HMMPredictor.FillReadingRow | src/model/HMMPredictor.java:308-331 | the O row of reading cell (Oi, Oj) holds the distance weights; other rows are unchanged |
| Predictor.HMMPredictor.FillReadingCell | src/model/HMMPredictor.java:310-329 | the four O entries of reading cell (Oi, Oj) for the states of cell (i, j) get the weight of the axis distances (0.1 same cell, 0.05 ring 1, 0.025 ring 2, else 0); every other entry of O is unchanged |
| Predictor.HMMPredictor.FillReadingRows | src/model/HMMPredictor.java:305-333 | all reading rows hold the distance weights; the "nothing" row is untouched |
| Predictor.HMMPredictor.FillNothingRow | src/model/HMMPredictor.java:336-344 | the "nothing" row holds 0.9 less the weighted frequencies of 0.05 and 0.025 in the cell's O row, divided by 4 |
| Predictor.HMMPredictor.GenerateOs | src/model/HMMPredictor.java:302-345 | every entry of O is the observation rule's entry |
| Predictor.HMMPredictor.ListMoves | src/model/HMMPredictor.java:348-360 | the candidates listed from the pose's T row are the rule's move list |
| Predictor.HMMPredictor.ListRowMoves | src/model/HMMPredictor.java:352-360 | the nested loops over a T row list its non-zero entries in row-major order |
| Predictor.HMMPredictor.ListCellMoves | src/model/HMMPredictor.java:354-358 | the heading loop for one cell extends the list by that cell's non-zero entries |
| Predictor.HMMPredictor.Move | src/model/HMMPredictor.java:347-379 | the new pose is the candidate the choice rule names for the draw; it is one legal step from the old pose, facing the direction moved; the reading is unchanged |
| Predictor.HMMPredictor.ListReadings | src/model/HMMPredictor.java:383-395 | the non-zero cells of the pose's O column in row-major order, then "nothing" |
| Predictor.HMMPredictor.ListCellReadings | src/model/HMMPredictor.java:386-393 | the two cell loops list exactly the reading candidates |
| Predictor.HMMPredictor.GetSensorReading | src/model/HMMPredictor.java:381-413 | the reading is the candidate the choice rule names; it lies within two cells of the pose or is (-1, -1), and its O entry for the pose is positive; the pose is unchanged |
| Predictor.HMMPredictor.BuildOT | src/model/HMMPredictor.java:421-425 | OTaux[i][j] = T[j][i] * O_r[i] |
| Predictor.HMMPredictor.AccumulateEntry | src/model/HMMPredictor.java:428-430 | newf[i] is the sum over j of T[j][i] * O_r[i] * f[j]; other entries are unchanged |
| Predictor.HMMPredictor.Accumulate | src/model/HMMPredictor.java:427-433 | newf is the forward message of f for reading row r and sumf is its total |
| Predictor.HMMPredictor.AccumulateRows | src/model/HMMPredictor.java:427-433 | the outer loop fills newf with the prescribed entries and sums them |
| Predictor.HMMPredictor.Message | src/model/HMMPredictor.java:417-433 | with T and O built, newf is Forward(r, f) and sumf is its total |
| Predictor.HMMPredictor.ScaleInto | src/model/HMMPredictor.java:436-439 | f becomes alpha times newf, entry by entry |
| Predictor.HMMPredictor.PosEstimate | src/model/HMMPredictor.java:415-440 | f becomes Forward(sensor row, old f) divided by its total, and is a distribution when the old f had no negative entry |
| Predictor.HMMPredictor.MoveAndRead | src/model/HMMPredictor.java:447-449 | the new pose is the move candidate that moveDraw selects and the reading is the candidate that readDraw selects; the forward message of the reading gives the new pose positive mass and has a positive total |
| Predictor.HMMPredictor.Update | src/model/HMMPredictor.java:446-452 | keeps Valid(): the pose takes the one legal step that moveDraw selects, the reading is the candidate that readDraw selects, the reading is possible for it, the total divided by is positive, f is the normalised message and the true pose keeps positive mass |
| Predictor.HMMPredictor.GetCurrentProb | src/model/HMMPredictor.java:482-489 | the result is the cell's block sum of f over the four headings, between 0 and 1 when f is a distribution |
| Predictor.HMMPredictor.GetOrXY | src/model/HMMPredictor.java:501-508 | a reading with a negative coordinate gives the "nothing" entry of the cell; any other gives the distance weight between the reading cell and the robot's cell |
| Predictor.HMMPredictor.GetTProb | src/model/HMMPredictor.java:515-517 | the weight of heading nH when (nX, nY) is the neighbour in that legal direction, and 0 otherwise |

## Left out

- Randomness: the `java.util.Random` draws of `move` and `getSensorReading` (`nextDouble() * 100`) and the constructor's random initial pose are parameters (`moveDraw`, `readDraw`, `row0`, `col0`, `head0`).
- Floating point: probabilities are exact reals. IEEE-754 rounding is not modelled. This affects the `!= 0` tests, the `Collections.frequency` equality on boxed doubles, and sums that are exactly 1 only in exact arithmetic.
- `Collections.frequency` over a boxed stream is modelled as a plain count over the O row (`Count`).
- The exception-based fallback of the sampling loop is the explicit "ran out of candidates, take the last" branch of `ChooseIndex`. The uncaught exception on an empty candidate list cannot occur, because `MoveListSteps` and `SensorCandidates` prove both lists non-empty.
- `getNumRows`, `getNumCols` and `getNumHead` only read fields, and `getCurrentReading` returns the reading array. `getCurrentTruePosition` allocates a new two-element array holding `pos[0]` and `pos[1]`, dropping the heading; its counterpart in the model is `pos[..2]`. None of them is a separate member: the fields `rows`, `cols`, `head`, `pos` and `sens` are public in the model.
- `Movement.getPos`/`Reading.getPos` return the stored array itself. The datatypes return the same value on every call, so aliasing is not represented. Nothing in the source writes through that array.
- The scratch `row` array of `generateCorners`/`generateWalls`/`generateT` is a `seq<real>` value that the methods reassign, not a local array written in place.
- `control.EstimatorInterface` and the GUI are not part of this model.
- Non-square and 1 x 1 grids are excluded by the `SquareGrid` precondition. The source leaves zero rows or indexes out of bounds there.
- Predictor.HMMPredictor.PosEstimate: requires the total it divides by to be non-zero. The source has no guard and would produce Infinity or NaN. `Update` proves the total positive on every step of a run.
- Predictor.HMMPredictor.GetCurrentProb: requires (x, y) to be a cell of the grid. For other arguments, the source reads whatever flat index `mapT` gives, or throws.
- Predictor.HMMPredictor.GetOrXY: requires the state to be in the grid and the reading to be a cell of the grid or negative. The source aliases or throws for other arguments.
- Predictor.HMMPredictor.GetTProb: requires both states to be in the grid. The source aliases or throws for other arguments.
