/** The greedy policy: score every cell by time-windowed reachability, keep
    the K best cells, then evaluate the coverage of that placement once. */
module GreedyPolicy {
  import opened Grid
  import opened Trace
  import opened ScoreModel
  import opened Selection
  import opened Coverage

  /** Largest K the greedy program accepts. */
  const MaxRsus := 1500

  /** The windowed score grid of a whole trace. */
  function WindowedScores(t: seq<Record>, tau: int): (g: seq<int>)
    requires PositionsInGrid(t)
    ensures |g| == CellCount && NonNegative(g) && Sum(g) <= |t|
  {
    WindowedBoundedByFrequency(t, tau, |t|);
    WindowedGrid(t, tau, |t|)
  }

  /** `greedy`: fill the windowed scores, count the scored cells, extract the
      maximum cell min(K, scored) times, then evaluate the coverage of the
      placement with the strict window, reusing the score grid as the mask.
      The placement does not depend on `c`, and the coverage is that of the
      final placement. */
  method Greedy(t: seq<Record>, k: int, tau: int, c: int) returns (solution: seq<Pos>, coverage: int)
    requires ValidTrace(t) && 1 <= k <= MaxRsus && tau > 0 && c > 0
    ensures |solution| == Min(k, CountNonZero(WindowedScores(t, tau)))
    ensures Indices(solution) == Extracted(WindowedScores(t, tau), |solution|)
    ensures IsTopKPlacement(WindowedScores(t, tau), solution)
    ensures coverage == CoverageOf(t, solution, tau, c, false)
    ensures 0 <= coverage <= |Vehicles(t)|
  {
    var cellsScores := new int[CellCount](_ => 0);
    FillScoresInCells(t, cellsScores, tau);
    var numberOfFrequentedCells := CountFrequented(cellsScores);
    var solutionSizeToAchieve := if k > numberOfFrequentedCells then numberOfFrequentedCells else k;
    ghost var scores := cellsScores[..];
    assert scores == WindowedScores(t, tau);
    solution := SelectTop(cellsScores, solutionSizeToAchieve);
    SelectedIsTopK(scores, solution, solutionSizeToAchieve);
    var numOfContacts := new int[MaxVehicles];
    coverage := CheckCoverage(t, solution, numOfContacts, cellsScores, tau, c, false);
    CoverageBounds(t, solution, tau, c, false);
  }
}
