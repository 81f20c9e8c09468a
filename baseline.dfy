/** The frequency baseline: count the records on every cell, then keep the K
    most visited cells. */
module BaselinePolicy {
  import opened Grid
  import opened Trace
  import opened ScoreModel
  import opened Selection

  /** Largest K the baseline accepts. */
  const MaxRsus := 1500

  /** The raw frequency grid of a whole trace. */
  function Frequencies(t: seq<Record>): (g: seq<int>)
    requires PositionsInGrid(t)
    ensures |g| == CellCount && NonNegative(g) && Sum(g) == |t|
  {
    FrequencyTotal(t, |t|);
    FrequencyGrid(t, |t|)
  }

  /** The counting loop of `baseline`: starting from an all-zero grid, every
      record adds 1 to its cell. */
  method TallyVisits(t: seq<Record>, cells: array<int>)
    requires PositionsInGrid(t) && cells.Length == CellCount && AllZero(cells[..])
    modifies cells
    ensures cells[..] == Frequencies(t)
  {
    assert cells[..] == Zeros();
    for i := 0 to |t|
      invariant cells[..] == FrequencyGrid(t, i)
    {
      var c := Index(Cell(t[i]));
      IndexInRange(Cell(t[i]));
      cells[c] := cells[c] + 1;
    }
  }

  /** `baseline`: count the records of every cell, count the frequented cells,
      then extract the maximum cell min(K, frequented) times. */
  method Baseline(t: seq<Record>, k: int) returns (solution: seq<Pos>)
    requires PositionsInGrid(t) && 1 <= k <= MaxRsus
    ensures |solution| == Min(k, CountNonZero(Frequencies(t)))
    ensures Indices(solution) == Extracted(Frequencies(t), |solution|)
    ensures IsTopKPlacement(Frequencies(t), solution)
  {
    var cellFrequency := new int[CellCount](_ => 0);
    TallyVisits(t, cellFrequency);
    var numberOfFrequentedCells := CountFrequented(cellFrequency);
    var solutionSizeToAchieve := if k > numberOfFrequentedCells then numberOfFrequentedCells else k;
    ghost var freq := cellFrequency[..];
    solution := SelectTop(cellFrequency, solutionSizeToAchieve);
    SelectedIsTopK(freq, solution, solutionSizeToAchieve);
  }
}
