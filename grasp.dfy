/** GRASP placement (`n_deployment`): every iteration builds a placement of K
    cells one at a time, each time taking the L best cells of the static score
    grid with the cells already placed zeroed (the restricted candidate list)
    and picking one of them by a pseudo-random draw; the placement is then
    evaluated by the inclusive-window coverage check and kept when it
    strictly beats the best so far.

    `rand()` is modelled by `draws`: `draws(m)` is the value of the m-th call
    after the generator was seeded. The draws are consumed in order, one per
    placed cell, so iteration `it` uses draws it*K .. it*K + K - 1. */
module Grasp {
  import opened Grid
  import opened Trace
  import opened Selection
  import opened Coverage
  import opened BestTracker

  /** Largest K `n_deployment` accepts. */
  const MaxRsus := 2500

  /** The parameters of `n_deployment`: the static score grid (filled by
      `fill_scores_in_cells` beforehand), K, the window, the contact
      threshold, the number of iterations and the candidate list length.
      The generator seed is replaced by the draws themselves. */
  datatype Input = Input(cells: seq<int>, numberOfRsus: nat, tau: int, c: int, iterations: nat, rclLen: int)

  /** What the command line reader guarantees. */
  predicate ValidInput(inp: Input) {
    && |inp.cells| == CellCount
    && 1 <= inp.numberOfRsus <= MaxRsus
    && inp.tau > 0 && inp.c > 0 && inp.iterations >= 1 && inp.rclLen >= 1
  }

  /** The restricted candidate list of a step: the `rclLen` cells a run of
      extract-max calls returns on the static grid with the cells of
      `placed` zeroed. */
  ghost function Rcl(scores: seq<int>, placed: seq<int>, rclLen: int): (r: seq<int>)
    requires |scores| == CellCount && rclLen >= 0
    ensures |r| == rclLen
    ensures forall i :: 0 <= i < rclLen ==> 0 <= r[i] < CellCount
  {
    Extracted(Zeroed(scores, placed), rclLen)
  }

  /** The first `n` cells of a construction whose first draw is number
      `first`: cell `j` is entry `draws(first + j) mod rclLen` of the
      candidate list seen after cells 0 .. j - 1. */
  ghost function Construct(scores: seq<int>, rclLen: int, draws: nat -> nat, first: nat, n: nat): (sol: seq<int>)
    requires |scores| == CellCount && rclLen >= 1
    ensures |sol| == n
    ensures forall j :: 0 <= j < n ==> 0 <= sol[j] < CellCount
  {
    if n == 0 then []
    else
      var p := Construct(scores, rclLen, draws, first, n - 1);
      p + [Rcl(scores, p, rclLen)[draws(first + n - 1) % rclLen]]
  }

  /** The placement built in iteration `it`, as cell indices. */
  ghost function IterationPlacement(inp: Input, draws: nat -> nat, it: nat): (sol: seq<int>)
    requires ValidInput(inp)
    ensures |sol| == inp.numberOfRsus
  {
    Construct(inp.cells, inp.rclLen, draws, it * inp.numberOfRsus, inp.numberOfRsus)
  }

  /** The coverage of every iteration's placement, iterations 0 .. n - 1. */
  ghost function IterationCoverages(t: seq<Record>, inp: Input, draws: nat -> nat, n: nat): (covs: seq<int>)
    requires ValidInput(inp)
    ensures |covs| == n
    ensures forall it :: 0 <= it < n ==>
              covs[it] == CoverageOfCells(t, IterationPlacement(inp, draws, it), inp.tau, inp.c, true)
  {
    seq(n, it requires 0 <= it < n => CoverageOfCells(t, IterationPlacement(inp, draws, it), inp.tau, inp.c, true))
  }

  /** The first `j` cells of an `n`-cell construction are the `j`-cell construction. */
  lemma {:induction false} ConstructPrefix(scores: seq<int>, rclLen: int, draws: nat -> nat, first: nat, n: nat, j: nat)
    requires |scores| == CellCount && rclLen >= 1 && j <= n
    ensures Construct(scores, rclLen, draws, first, n)[..j] == Construct(scores, rclLen, draws, first, j)
    decreases n
  {
    if j < n {
      ConstructPrefix(scores, rclLen, draws, first, n - 1, j);
      PrefixOfPrefix(Construct(scores, rclLen, draws, first, n), Construct(scores, rclLen, draws, first, n - 1),
                     Construct(scores, rclLen, draws, first, j), j);
    }
  }

  /** Cell `j` of a construction is taken from the candidate list seen after
      the cells before it, at position draw mod L, which lies in [0, L). */
  lemma ConstructPicksFromRcl(scores: seq<int>, rclLen: int, draws: nat -> nat, first: nat, n: nat, j: nat)
    requires |scores| == CellCount && rclLen >= 1 && j < n
    ensures 0 <= draws(first + j) % rclLen < rclLen
    ensures Construct(scores, rclLen, draws, first, n)[j] ==
            Rcl(scores, Construct(scores, rclLen, draws, first, n)[..j], rclLen)[draws(first + j) % rclLen]
  {
    ConstructPrefix(scores, rclLen, draws, first, n, j + 1);
    ConstructPrefix(scores, rclLen, draws, first, n, j);
    var r := Construct(scores, rclLen, draws, first, n);
    assert r[j] == r[..j + 1][j];
  }

  /** A construction reads draws `first` .. `first + n - 1` and no others:
      two draw streams that agree there build the same placement. */
  lemma {:induction false} ConstructUsesItsDraws(scores: seq<int>, rclLen: int, d1: nat -> nat, d2: nat -> nat, first: nat, n: nat)
    requires |scores| == CellCount && rclLen >= 1
    requires forall m :: first <= m < first + n ==> d1(m) == d2(m)
    ensures Construct(scores, rclLen, d1, first, n) == Construct(scores, rclLen, d2, first, n)
  {
    if n > 0 {
      ConstructUsesItsDraws(scores, rclLen, d1, d2, first, n - 1);
      assert d1(first + n - 1) == d2(first + n - 1);
    }
  }

  /** With a candidate list of length 1 every draw picks entry 0, and GRASP
      builds the first n successive extract-max picks of the static scores. */
  lemma {:induction false} SingleCandidateIsGreedy(scores: seq<int>, draws: nat -> nat, first: nat, n: nat)
    requires |scores| == CellCount
    ensures Construct(scores, 1, draws, first, n) == Extracted(scores, n)
  {
    if n > 0 {
      SingleCandidateIsGreedy(scores, draws, first, n - 1);
      var p := Extracted(scores, n - 1);
      var w := Zeroed(scores, p);
      assert Zeroed(w, []) == w;
      assert Rcl(scores, p, 1) == [FirstMaxIndex(w)];
    }
  }

  /** With a candidate list of length 1 the placement is greedy's placement
      (the first min(n, scored cells) extract-max picks) followed, once the
      scored cells are used up, by (0,0) picks: unlike greedy, GRASP does not
      stop at the number of scored cells. */
  lemma SingleCandidateIsGreedyThenOrigin(scores: seq<int>, draws: nat -> nat, first: nat, n: nat)
    requires |scores| == CellCount && NonNegative(scores)
    ensures var m := Min(n, CountNonZero(scores));
      Construct(scores, 1, draws, first, n)[..m] == Extracted(scores, m)
    ensures forall j :: CountNonZero(scores) <= j < n ==> Construct(scores, 1, draws, first, n)[j] == 0
  {
    SingleCandidateIsGreedy(scores, draws, first, n);
    ExtractedPrefix(scores, n, Min(n, CountNonZero(scores)));
    forall j | CountNonZero(scores) <= j < n ensures Extracted(scores, n)[j] == 0 {
      ExhaustedPicksAreOrigin(scores, n, j);
    }
  }

  /** On an all-zero score grid every candidate list is all cell 0, so every
      RSU of the placement lands on (0,0): GRASP does not avoid repeating a
      cell once the scored cells are used up. */
  lemma {:induction false} ZeroScoresStackOnOrigin(scores: seq<int>, rclLen: int, draws: nat -> nat, first: nat, n: nat)
    requires |scores| == CellCount && rclLen >= 1 && AllZero(scores)
    ensures forall j :: 0 <= j < n ==> Construct(scores, rclLen, draws, first, n)[j] == 0
  {
    if n > 0 {
      ZeroScoresStackOnOrigin(scores, rclLen, draws, first, n - 1);
      var p := Construct(scores, rclLen, draws, first, n - 1);
      var w := Zeroed(scores, p);
      assert AllZero(w);
      AllZeroHasNoNonZero(w);
      var i := draws(first + n - 1) % rclLen;
      ExhaustedPicksAreOrigin(w, rclLen, i);
    }
  }

  lemma AllZeroHasNoNonZero(s: seq<int>)
    requires AllZero(s)
    ensures CountNonZero(s) == 0
  {
    CountNonZeroIsCardinality(s);
    assert NonZeroCells(s) == {};
  }

  /** While at least K + L - 1 cells score above zero, every candidate list
      is drawn from cells not yet placed, so the placement holds K distinct
      cells, each with a positive score. */
  lemma {:induction false} ConstructDistinctWhenEnoughCandidates(scores: seq<int>, rclLen: int, draws: nat -> nat, first: nat, n: nat)
    requires |scores| == CellCount && rclLen >= 1 && NonNegative(scores)
    requires n + rclLen - 1 <= CountNonZero(scores)
    ensures forall j :: 0 <= j < n ==> scores[Construct(scores, rclLen, draws, first, n)[j]] > 0
    ensures forall a, b :: 0 <= a < b < n ==>
              Construct(scores, rclLen, draws, first, n)[a] != Construct(scores, rclLen, draws, first, n)[b]
  {
    if n > 0 {
      ConstructDistinctWhenEnoughCandidates(scores, rclLen, draws, first, n - 1);
      var p := Construct(scores, rclLen, draws, first, n - 1);
      ZeroedCount(scores, p);
      var w := Zeroed(scores, p);
      assert NonNegative(w);
      ExtractedIsTopK(w, rclLen);
      var rcl := Rcl(scores, p, rclLen);
      var m := rcl[draws(first + n - 1) % rclLen];
      assert w[m] > 0;
      assert m !in p;
      var r := p + [m];
      assert Construct(scores, rclLen, draws, first, n) == r;
      forall a, b | 0 <= a < b < n ensures r[a] != r[b] {
        if b < n - 1 {
          assert r[a] == p[a] && r[b] == p[b];
        } else {
          assert r[a] == p[a];
        }
      }
      forall j | 0 <= j < n ensures scores[r[j]] > 0 {
        if j < n - 1 {
          assert r[j] == p[j];
        }
      }
    }
  }

  /** `reset_score_of_cells_having_rsu`: the cells of the placement become 0,
      every other cell keeps its score. */
  method ResetScoreOfCellsHavingRsu(cells: array<int>, solution: seq<Pos>)
    requires cells.Length == CellCount && AllInGrid(solution)
    modifies cells
    ensures cells[..] == Zeroed(old(cells[..]), Indices(solution))
  {
    ghost var s := cells[..];
    assert Zeroed(s, []) == s;
    for i := 0 to |solution|
      invariant cells[..] == Zeroed(s, Indices(solution[..i]))
    {
      IndexInRange(solution[i]);
      ZeroedAppend(s, Indices(solution[..i]), Index(solution[i]));
      assert Indices(solution[..i + 1]) == Indices(solution[..i]) + [Index(solution[i])];
      cells[Index(solution[i])] := 0;
    }
    assert solution[..|solution|] == solution;
  }

  /** One turn of the construction loop keeps it in step with `Construct`. */
  lemma ConstructStep(scores: seq<int>, rclLen: int, draws: nat -> nat, first: nat,
                      solution: seq<Pos>, rcl: seq<Pos>, selected: int)
    requires |scores| == CellCount && rclLen >= 1
    requires AllInGrid(solution) && Indices(solution) == Construct(scores, rclLen, draws, first, |solution|)
    requires AllInGrid(rcl) && Indices(rcl) == Rcl(scores, Indices(solution), rclLen)
    requires selected == draws(first + |solution|) % rclLen
    ensures 0 <= selected < |rcl|
    ensures AllInGrid(solution + [rcl[selected]])
    ensures Indices(solution + [rcl[selected]]) == Construct(scores, rclLen, draws, first, |solution| + 1)
  {
    assert Indices(solution + [rcl[selected]]) == Indices(solution) + [Index(rcl[selected])];
  }

  /** One GRASP construction (the inner loop of `n_deployment`): for each of
      the K cells, copy the static scores into the working grid, zero the
      cells already placed, extract the candidate list and append the entry
      the next draw selects. The static scores are a value and never change.
      What the working grid `cells` holds afterwards is left unspecified: it is
      scratch space, and every step overwrites it with a fresh copy. */
  method ConstructPlacement(scores: seq<int>, numberOfRsus: nat, rclLen: int, draws: nat -> nat, first: nat,
                            cells: array<int>) returns (solution: seq<Pos>)
    requires |scores| == CellCount && cells.Length == CellCount && rclLen >= 1
    modifies cells
    ensures |solution| == numberOfRsus && AllInGrid(solution)
    ensures Indices(solution) == Construct(scores, rclLen, draws, first, numberOfRsus)
  {
    solution := [];
    while |solution| < numberOfRsus
      invariant |solution| <= numberOfRsus && AllInGrid(solution)
      invariant Indices(solution) == Construct(scores, rclLen, draws, first, |solution|)
    {
      forall k | 0 <= k < CellCount {
        cells[k] := scores[k];
      }
      assert cells[..] == scores;
      ResetScoreOfCellsHavingRsu(cells, solution);
      var rcl := SelectTop(cells, rclLen);
      var selected := draws(first + |solution|) % rclLen;
      ConstructStep(scores, rclLen, draws, first, solution, rcl, selected);
      solution := solution + [rcl[selected]];
    }
  }

  /** `n_deployment`: run the given number of iterations, each building a
      placement and evaluating it with the inclusive window; keep the first
      placement of strictly highest coverage and log every improvement. The
      outcome is the tracker run over the iteration coverages, so it is fixed
      by the trace, the input and the draws. */
  method NDeployment(t: seq<Record>, inp: Input, draws: nat -> nat)
      returns (bestSolution: Option<seq<Pos>>, bestCoverage: int, log: seq<(int, int)>)
    requires ValidTrace(t) && ValidInput(inp)
    ensures var r := Track(IterationCoverages(t, inp, draws, inp.iterations));
      && bestCoverage == r.best
      && log == r.log
      && (bestSolution.Some? <==> r.bestIteration.Some?)
      && (bestSolution.Some? ==>
            && AllInGrid(bestSolution.value)
            && r.bestIteration.value >= 0
            && Indices(bestSolution.value) == IterationPlacement(inp, draws, r.bestIteration.value))
    ensures 0 <= bestCoverage <= |Vehicles(t)|
  {
    bestCoverage := 0;
    bestSolution := None;
    log := [];
    ghost var bestIteration: Option<int> := None;
    var numOfContacts := new int[MaxVehicles];
    var cells := new int[CellCount];
    var drawIndex: nat := 0;
    for iterationIndex := 0 to inp.iterations
      invariant drawIndex == iterationIndex * inp.numberOfRsus
      invariant Kept(t, inp, draws, iterationIndex, bestSolution, bestCoverage, bestIteration, log)
    {
      var solution := ConstructPlacement(inp.cells, inp.numberOfRsus, inp.rclLen, draws, drawIndex, cells);
      drawIndex := drawIndex + inp.numberOfRsus;
      var coverage := CheckCoverage(t, solution, numOfContacts, cells, inp.tau, inp.c, true);
      KeptStep(t, inp, draws, iterationIndex, bestSolution, bestCoverage, bestIteration, log, solution, coverage);
      if coverage > bestCoverage {
        bestCoverage := coverage;
        log := log + [(iterationIndex, coverage)];
        bestSolution := Some(solution);
        bestIteration := Some(iterationIndex);
      }
    }
  }

  /** The iteration loop's invariant after `n` iterations: the best coverage
      and the log are the tracker's, the stored placement is the one built
      in the tracker's best iteration, and the best coverage is a vehicle count. */
  ghost predicate Kept(t: seq<Record>, inp: Input, draws: nat -> nat, n: nat, bestSolution: Option<seq<Pos>>,
                       bestCoverage: int, bestIteration: Option<int>, log: seq<(int, int)>)
    requires ValidInput(inp)
  {
    && Track(IterationCoverages(t, inp, draws, n)) == Tracked(bestCoverage, bestIteration, log)
    && (bestSolution.Some? <==> bestIteration.Some?)
    && (bestSolution.Some? ==>
          && 0 <= bestIteration.value < n
          && AllInGrid(bestSolution.value)
          && Indices(bestSolution.value) == IterationPlacement(inp, draws, bestIteration.value))
    && 0 <= bestCoverage <= |Vehicles(t)|
  }

  /** One iteration keeps the invariant, whether or not it improves. */
  lemma KeptStep(t: seq<Record>, inp: Input, draws: nat -> nat, n: nat, bestSolution: Option<seq<Pos>>,
                 bestCoverage: int, bestIteration: Option<int>, log: seq<(int, int)>,
                 solution: seq<Pos>, coverage: int)
    requires ValidInput(inp) && Kept(t, inp, draws, n, bestSolution, bestCoverage, bestIteration, log)
    requires AllInGrid(solution) && Indices(solution) == IterationPlacement(inp, draws, n)
    requires coverage == CoverageOf(t, solution, inp.tau, inp.c, true)
    ensures coverage > bestCoverage ==>
              Kept(t, inp, draws, n + 1, Some(solution), coverage, Some(n), log + [(n, coverage)])
    ensures coverage <= bestCoverage ==>
              Kept(t, inp, draws, n + 1, bestSolution, bestCoverage, bestIteration, log)
  {
    CoverageBounds(t, solution, inp.tau, inp.c, true);
    var before := IterationCoverages(t, inp, draws, n);
    assert IterationCoverages(t, inp, draws, n + 1) == before + [coverage];
    TrackSnoc(before, coverage);
  }
}
