# RSU placement engine — a verified Dafny model

The repository places roadside units (RSUs) on the cells of a fixed 100 × 100
urban grid so that as many vehicles of a mobility trace as possible meet an
RSU often enough. Three C programs share most of their code:

- `baseline` counts how many trace records fall on every cell and keeps the K
  most visited cells;
- `greedy` scores every cell by time-windowed reachability (`fill_scores_in_cells`),
  keeps the K best cells and evaluates the coverage of that placement once
  (`check_coverage`);
- `n-deployment` runs GRASP: every iteration builds a placement cell by cell,
  each time drawing one of the L best remaining cells (the restricted
  candidate list, RCL) with `rand() % L`, evaluates it, and keeps the first
  placement of strictly highest coverage while logging every improvement.

The functions the programs share (`reset_cells`, extract-max,
`get_num_frequented_cells`, `fill_scores_in_cells`, `check_coverage`,
`reset_vehicles`) are modelled once, in the module their concept belongs to:

| module | file | what it holds |
|---|---|---|
| `Grid` | grid.dfy | the grid as one flat `array<int>` of 10000 cells (C stores `int[100][100]` row-major, so cell (x, y) is element `x * 100 + y`); reset, extract-max, frequented-cell count |
| `Trace` | trace.dfy | trace records, runs of one vehicle, the trace requirements |
| `ScoreModel` | scores.dfy | the frequency and windowed score grids as functions, `fill_scores_in_cells` as a method |
| `Selection` | selection.dfy | repeated extract-max (`Extracted`), its top-K properties, the selection loop `SelectTop` |
| `Coverage` | coverage.dfy | the coverage objective as a function and `check_coverage` as a method |
| `BaselinePolicy`, `GreedyPolicy` | baseline.dfy, greedy.dfy | the two top-K programs |
| `BestTracker` | tracker.dfy | strict-improvement best tracking and the improvement log |
| `Grasp` | grasp.dfy | RCL, GRASP construction and the `n_deployment` iteration loop |

Every method keeps the source's loops and in-place updates on arrays and is
proved against a specification function on sequences: `ExtractMax` against
`FirstMaxIndex` (the first maximum in x-then-y order), `SelectTop` against
`Extracted`, `FillScoresInCells` against `WindowedGrid`, `CheckCoverage`
against `CoverageOf`, `NDeployment` against `Track` applied to the coverages
of `IterationPlacement`. The lemmas then state what the programs promise about
those functions.

Modelling choices:

- `rand()` is a parameter `draws: nat -> nat`; `draws(m)` is the value of the
  m-th call after seeding. One draw is consumed per placed cell, so GRASP
  iteration `it` reads draws `it * K .. it * K + K - 1`. Equal draws give equal
  results because every result is a function of the inputs and the draws.
- The window test of `check_coverage` is `<=` in `n-deployment` and `<` in
  `greedy`; `Coverage` takes a flag `inclusive` for it.
- `n_deployment` returns the best placement as an `Option`: it is `None` when
  no iteration beats coverage 0, because the C code then never writes
  `best_solution` (grasp_src/n-deployment.c:437), although `main` writes K
  entries of it afterwards (grasp_src/n-deployment.c:208). The improvement log,
  written with `fprintf` in C, is returned as a sequence of
  `(iteration, coverage)` pairs.
- GRASP does not avoid repeating a cell: once fewer than K + L - 1 cells score
  above zero, the candidate list can contain cell (0,0) (the scan's starting
  cell on an all-zero grid) several times and the placement can hold
  duplicates (`Selection.ExhaustedPicksAreOrigin` for any grid once its
  non-zero cells are used up, `Grasp.ZeroScoresStackOnOrigin` for an all-zero
  grid, `Grasp.SingleCandidateIsGreedyThenOrigin` for L = 1). With enough scored cells the
  placement is duplicate-free (`Grasp.ConstructDistinctWhenEnoughCandidates`).
- The trace reader checks that coordinates lie on the grid and counts
  vehicle runs, but never checks that a vehicle id is below 80000, although
  `check_coverage` indexes its counters by vehicle id. The model requires
  `0 <= vehicle < 80000` of the trace (`Trace.ValidTrace`) wherever coverage
  is evaluated.

## Model

| member | source | states |
|---|---|---|
| `Grid.ResetCells` | grasp_src/n-deployment.c:495-501 | every cell of the grid is 0 afterwards |
| `Grid.FirstMaxIn` | grasp_src/n-deployment.c:517-528 | the cell a strict-`>` scan of the first n cells keeps holds their maximum, and every cell before it holds strictly less |
| `Grid.FirstMaxUnique` | grasp_src/n-deployment.c:517-528 | a grid has exactly one first maximum, and it is the cell the full scan keeps |
| `Grid.ExtractMax` | grasp_src/n-deployment.c:513-533 | the returned cell is on the grid, its old score is at least every cell's and strictly above every earlier cell's (ties go to lowest x, then lowest y); afterwards it is 0 and every other cell is unchanged |
| `Grid.FirstMaxOfZeroGridIsOrigin` | grasp_src/n-deployment.c:515-530 | on an all-zero grid extract-max returns (0,0) |
| `Grid.CountFrequented` | greedy_src/greedy.c:397-413 | the result is the number of non-zero cells, both as a scan count and as the size of the set of non-zero cells |
| `Grid.CountNonZeroIsCardinality` | baseline_src/baseline.c:323-339 | the scan-order count of non-zero cells equals the size of the set of non-zero cells |
| `Grid.CountNonZeroClear` | baseline_src/baseline.c:341-362 | zeroing one non-zero cell lowers the frequented-cell count by exactly 1 |
| `Grid.FirstMaxPositive` | baseline_src/baseline.c:346-355 | on a non-negative grid with a non-zero cell, extract-max picks a cell with a positive score |
| `ScoreModel.FrequencyCountsRecords` | baseline_src/baseline.c:296-299 | after counting, every cell's value is the number of trace records on that cell |
| `ScoreModel.FrequencyTotal` | baseline_src/baseline.c:291-299 | the frequency grid is non-negative and its total is the number of records |
| `ScoreModel.WindowedCountsScoredRecords` | grasp_src/n-deployment.c:462-493 | every cell's windowed score is the number of records on it that either open their vehicle's run or follow earlier records of the run whose `r` values, summed and multiplied by 10, come to at most `tau` |
| `ScoreModel.RecordContribution` | grasp_src/n-deployment.c:470-491 | a record changes no cell but its own; it adds 1 when it opens its vehicle's run, and otherwise exactly when 10 × the sum of `r` over the earlier records of the run is at most `tau` |
| `ScoreModel.WindowedBoundedByFrequency` | grasp_src/n-deployment.c:465-492 | windowed scores start from zero, stay non-negative, never exceed the cell's raw frequency, and total at most the trace size |
| `ScoreModel.FillScoresInCells` | grasp_src/n-deployment.c:462-493 | the grid afterwards is the windowed score grid of the whole trace, whatever it held before |
| `Selection.ExtractedIsTopK` | greedy_src/greedy.c:369-376 | while non-zero cells remain, the first n picks are distinct, each non-zero, each at least every unpicked cell, and each pick lowers the frequented count by 1 |
| `Selection.PicksDescending` | greedy_src/greedy.c:456-477 | scores along the picks never increase, and equal scores come out in ascending (x, then y) order |
| `Selection.ExhaustedPicksAreOrigin` | greedy_src/greedy.c:456-477 | once the non-zero cells are used up, every further pick is (0,0) |
| `Selection.ZeroedCount` | baseline_src/baseline.c:307-314 | zeroing k distinct non-zero cells lowers the frequented count by exactly k |
| `Selection.SelectedIsTopK` | baseline_src/baseline.c:307-314 | a placement made of the first n extractions, n at most the frequented count, is a true top-K: on the grid, distinct, non-zero, dominating every unpicked cell, non-increasing with ties in (x, then y) order |
| `Selection.SelectTop` | greedy_src/greedy.c:369-376 | `count` extract-max calls return `count` on-grid cells that are exactly the successive first maxima, and leave the grid with exactly those cells zeroed |
| `Selection.TopTwoOfExampleGrid` | baseline_src/baseline.c:307-314 | with (1,1)=5, (2,2)=5, (3,3)=3 and K = 2 there are three frequented cells and the picks are [(1,1), (2,2)] |
| `Coverage.ResetVehicles` | grasp_src/n-deployment.c:573-577 | the first `count` counters are 0 and the rest are unchanged |
| `Coverage.MarkRsuCells` | grasp_src/n-deployment.c:539-542 | the mask holds 1 exactly on the placement's cells and 0 elsewhere |
| `Coverage.WalkTrace` | grasp_src/n-deployment.c:544-563 | every vehicle's counter ends as its number of contacts: records on an RSU cell inside the window anchored at the first record of their run, that first record included (the `i--` rewind) |
| `Coverage.CountCovered` | grasp_src/n-deployment.c:565-568 | the result is the number of vehicle ids whose counter is at least `C` |
| `Coverage.CheckCoverage` | grasp_src/n-deployment.c:535-571 | the result is the coverage objective of the placement, independent of the old contents of the scratch counters and mask; afterwards every counter holds its vehicle's contacts and the mask is 1 exactly on the placement's cells |
| `Coverage.CoverageBounds` | grasp_src/n-deployment.c:565-570 | with `C` > 0, coverage lies between 0 and the number of distinct vehicle ids of the trace |
| `Coverage.EmptyPlacementCoversNone` | grasp_src/n-deployment.c:539-570 | an empty placement covers no vehicle |
| `Coverage.ContactsMonotone` | grasp_src/n-deployment.c:548-557 | more RSU cells, or the inclusive window instead of the strict one, never remove a contact |
| `Coverage.CoverageMonotone` | grasp_src/n-deployment.c:539-570 | coverage never decreases when the RSU cells grow or the window becomes inclusive |
| `Coverage.AddingRsuNeverLowersCoverage` | grasp_src/n-deployment.c:539-570 | adding a cell to a placement never lowers its coverage |
| `Coverage.InclusiveWindowCoversAtLeastStrict` | greedy_src/greedy.c:496-498 | greedy's strict window covers at most the vehicles GRASP's inclusive window covers |
| `Coverage.SingleVehicleScenario` | grasp_src/n-deployment.c:545-562 | one vehicle at (1,1) at times 0 and 5 with an RSU there, `tau` = 50 and `C` = 1 is covered under either window, its first record counting through the rewind |
| `BaselinePolicy.Frequencies` | baseline_src/baseline.c:296-299 | the frequency grid covers every cell, is non-negative and totals the trace size |
| `BaselinePolicy.TallyVisits` | baseline_src/baseline.c:291-299 | from an all-zero grid, the counting loop leaves exactly the frequency grid |
| `BaselinePolicy.Baseline` | baseline_src/baseline.c:286-321 | the result has min(K, frequented cells) cells, is the successive extract-max of the frequencies and is a true top-K of them |
| `GreedyPolicy.WindowedScores` | greedy_src/greedy.c:415-446 | the windowed grid covers every cell, is non-negative and totals at most the trace size |
| `GreedyPolicy.Greedy` | greedy_src/greedy.c:346-395 | the placement has min(K, scored cells) cells, is the successive extract-max of the windowed scores (independent of `C`) and a true top-K of them; the coverage is the strict-window objective of that final placement and lies in [0, distinct vehicles] |
| `BestTracker.TrackIsRunningMaximum` | grasp_src/n-deployment.c:437-448 | the final best is max(0, every iteration's coverage); the stored placement is that of the first iteration reaching it; nothing is stored exactly when the best is 0 |
| `BestTracker.RecordIffImproves` | grasp_src/n-deployment.c:437-438 | an iteration replaces the best exactly when it beats 0 and every earlier iteration |
| `BestTracker.TrackLogIsRecords` | grasp_src/n-deployment.c:437-441 | the log holds exactly the improving iterations with their coverages; iterations and coverages both strictly increase; the last line is the final best |
| `BestTracker.NothingStoredWithoutCoverage` | grasp_src/n-deployment.c:389-448 | when no iteration covers anyone, the best stays 0, nothing is stored and the log is empty |
| `Grasp.Rcl` | grasp_src/n-deployment.c:414-420 | the candidate list has L cells, all on the grid |
| `Grasp.Construct` | grasp_src/n-deployment.c:402-430 | an n-cell construction has n cells, all on the grid |
| `Grasp.ConstructPicksFromRcl` | grasp_src/n-deployment.c:414-426 | cell j of a construction is entry `draw mod L` of the candidate list seen after cells 0 .. j-1, and that entry index lies in [0, L) |
| `Grasp.ConstructUsesItsDraws` | grasp_src/n-deployment.c:423 | a construction reads only its own n draws: draw streams that agree there give the same placement |
| `Grasp.SingleCandidateIsGreedy` | grasp_src/n-deployment.c:414-426 | with L = 1 every draw selects entry 0, so an n-cell construction is the first n successive extract-max picks of the static scores |
| `Grasp.SingleCandidateIsGreedyThenOrigin` | grasp_src/n-deployment.c:402-430 | with L = 1 the placement starts with greedy's placement, the first min(n, scored cells) extract-max picks, and every further cell is (0,0): GRASP does not stop at the number of scored cells |
| `Grasp.ZeroScoresStackOnOrigin` | grasp_src/n-deployment.c:414-426 | on an all-zero score grid every cell of the placement is (0,0) |
| `Grasp.ConstructDistinctWhenEnoughCandidates` | grasp_src/n-deployment.c:402-430 | when at least K + L - 1 cells score above zero, the placement holds K distinct cells with positive scores |
| `Grasp.ResetScoreOfCellsHavingRsu` | grasp_src/n-deployment.c:503-511 | exactly the placement's cells become 0 and every other cell keeps its score |
| `Grasp.ConstructPlacement` | grasp_src/n-deployment.c:402-430 | the loop ends with exactly K on-grid cells, the construction of the static scores from draws `first .. first + K - 1`; the static scores are a value and are not changed; the scratch working grid is left unspecified |
| `Grasp.NDeployment` | grasp_src/n-deployment.c:387-460 | best coverage and log are the tracker run over every iteration's coverage; a placement is stored exactly when some iteration beat 0, and it is the placement built in the best iteration; the best coverage lies in [0, distinct vehicles] |

## Left out

- `main`, `read_commandline_args` and `try_to_get_positive_int_from_arg`:
  command-line parsing and `atoi`. Their guarantees (K, `tau`, `C`, L and the
  iteration count positive; K at most 2500 for GRASP and 1500 for the other
  two) are preconditions (`Grasp.ValidInput`, the `requires` of `Baseline` and
  `Greedy`). The call of `fill_scores_in_cells` that `main` makes before
  `n_deployment` is not composed: `NDeployment` takes the score grid as input.
- `read_trace`: file input and `sscanf`. Its coordinate check is the
  precondition `Trace.PositionsInGrid`. Its trace-size limit, run-count limit
  and non-empty check are not needed by any modelled operation and are
  dropped. The vehicle-id bound that `check_coverage` needs is required
  explicitly (see above).
- `write_summary_to_file`, `write_rsus_to_file` and the `fprintf` of the
  improvement log: output only. The log is returned as a sequence.
- `clock()` timing and the `double` divisions for execution times: wall
  clock and floating point.
- `srand`/`rand`: the C library generator is replaced by the `draws`
  parameter; the seed is not modelled.
- `malloc`/`free` of the RCL: the candidate list is a sequence.
- `memcpy` of the static scores into the working grid is an element-wise copy
  from a sequence; the static grid inside the C input struct is modelled as an
  immutable value of `Grasp.Input`.
- 32-bit `int` overflow: the `10 * r` time accumulator of
  `fill_scores_in_cells` and the window bound `start_time + tau` of
  `check_coverage` are unbounded integers in the model. (The score and contact
  counters are bounded by the 2200000-line trace limit and cannot overflow.)
- Coverage.CheckCoverage: does not model the signed overflow of
  `start_time + tau` (grasp_src/n-deployment.c:553, greedy_src/greedy.c:497);
  the command line accepts any positive `tau` up to the largest `int`, and when
  the sum exceeds it the C behaviour is undefined (in practice it wraps to a
  negative bound and the record is not counted), whereas the model compares
  against the exact sum and counts it. The same holds for the coverage
  returned by `GreedyPolicy.Greedy` and `Grasp.NDeployment`.
- The `number_of_contacts` argument of `fill_scores_in_cells` is unused by
  the C code and dropped from `FillScoresInCells`.
