/** The two score models: raw visit frequency (baseline) and time-windowed
    reachability (greedy and GRASP), each a dense score per grid cell. */
module ScoreModel {
  import opened Grid
  import opened Trace

  function Zeros(): (g: seq<int>)
    ensures |g| == CellCount && AllZero(g)
  {
    seq(CellCount, _ => 0)
  }

  /** Raw frequency grid after the first `n` records: every record adds 1 to its cell. */
  function FrequencyGrid(t: seq<Record>, n: int): (g: seq<int>)
    requires PositionsInGrid(t) && 0 <= n <= |t|
    ensures |g| == CellCount
  {
    if n == 0 then Zeros()
    else
      var g := FrequencyGrid(t, n - 1);
      var k := Index(Cell(t[n - 1]));
      g[k := g[k] + 1]
  }

  /** Record `i` counts toward its cell's windowed score: it opens its vehicle's
      run, or ten times the sum of `r` over the earlier records of that run is
      at most `tau`. */
  predicate Scored(t: seq<Record>, tau: int, i: int)
    requires 0 <= i < |t|
  {
    IsRunStart(t, i) || 10 * SumR(t, RunStart(t, i), i) <= tau
  }

  /** Windowed score grid after the first `n` records. */
  function WindowedGrid(t: seq<Record>, tau: int, n: int): (g: seq<int>)
    requires PositionsInGrid(t) && 0 <= n <= |t|
    ensures |g| == CellCount
  {
    if n == 0 then Zeros()
    else
      var g := WindowedGrid(t, tau, n - 1);
      var k := Index(Cell(t[n - 1]));
      if Scored(t, tau, n - 1) then g[k := g[k] + 1] else g
  }

  /** Indices among the first `n` records that lie on cell `k`. */
  function RecordsAt(t: seq<Record>, k: int, n: int): set<int>
    requires 0 <= n <= |t|
  {
    set i | 0 <= i < n && Index(Cell(t[i])) == k
  }

  /** Indices among the first `n` records that lie on cell `k` and are scored. */
  function ScoredRecordsAt(t: seq<Record>, tau: int, k: int, n: int): set<int>
    requires 0 <= n <= |t|
  {
    set i | 0 <= i < n && Index(Cell(t[i])) == k && Scored(t, tau, i)
  }

  /** Each cell's frequency is the number of records on that cell. */
  lemma {:induction false} FrequencyCountsRecords(t: seq<Record>, n: int, k: int)
    requires PositionsInGrid(t) && 0 <= n <= |t| && 0 <= k < CellCount
    ensures FrequencyGrid(t, n)[k] == |RecordsAt(t, k, n)|
  {
    if n > 0 {
      FrequencyCountsRecords(t, n - 1, k);
      if Index(Cell(t[n - 1])) == k {
        assert RecordsAt(t, k, n) == RecordsAt(t, k, n - 1) + {n - 1};
      } else {
        assert RecordsAt(t, k, n) == RecordsAt(t, k, n - 1);
      }
    }
  }

  /** Each cell's windowed score is the number of scored records on that cell. */
  lemma {:induction false} WindowedCountsScoredRecords(t: seq<Record>, tau: int, n: int, k: int)
    requires PositionsInGrid(t) && 0 <= n <= |t| && 0 <= k < CellCount
    ensures WindowedGrid(t, tau, n)[k] == |ScoredRecordsAt(t, tau, k, n)|
  {
    if n > 0 {
      WindowedCountsScoredRecords(t, tau, n - 1, k);
      ScoredRecordsStep(t, tau, k, n);
    }
  }

  lemma ScoredRecordsStep(t: seq<Record>, tau: int, k: int, n: int)
    requires 0 < n <= |t|
    ensures |ScoredRecordsAt(t, tau, k, n)| ==
            |ScoredRecordsAt(t, tau, k, n - 1)| + (if Index(Cell(t[n - 1])) == k && Scored(t, tau, n - 1) then 1 else 0)
  {
    var now, before := ScoredRecordsAt(t, tau, k, n), ScoredRecordsAt(t, tau, k, n - 1);
    var added := if Index(Cell(t[n - 1])) == k && Scored(t, tau, n - 1) then {n - 1} else {};
    forall i | i in now ensures i in before + added {
      if i < n - 1 {
        assert i in before;
      }
    }
    assert now == before + added;
  }

  lemma {:induction false} SumUpdate(s: seq<int>, k: int, v: int)
    requires 0 <= k < |s|
    ensures Sum(s[k := v]) == Sum(s) - s[k] + v
  {
    var last := |s| - 1;
    if k == last {
      assert s[k := v][..last] == s[..last];
    } else {
      assert s[k := v][..last] == s[..last][k := v];
      SumUpdate(s[..last], k, v);
    }
  }

  lemma {:induction false} SumOfZeros(s: seq<int>)
    requires AllZero(s)
    ensures Sum(s) == 0
  {
    if |s| > 0 {
      SumOfZeros(s[..|s| - 1]);
    }
  }

  /** The frequency grid's total is the number of records counted. */
  lemma {:induction false} FrequencyTotal(t: seq<Record>, n: int)
    requires PositionsInGrid(t) && 0 <= n <= |t|
    ensures Sum(FrequencyGrid(t, n)) == n
    ensures NonNegative(FrequencyGrid(t, n))
  {
    if n == 0 {
      SumOfZeros(Zeros());
    } else {
      FrequencyTotal(t, n - 1);
      var g := FrequencyGrid(t, n - 1);
      SumUpdate(g, Index(Cell(t[n - 1])), g[Index(Cell(t[n - 1]))] + 1);
    }
  }

  /** Every record adds at most 1, and only to its own cell: the windowed
      scores are non-negative, never above the raw frequency of the cell, and
      their total is at most the number of records. */
  lemma {:induction false} WindowedBoundedByFrequency(t: seq<Record>, tau: int, n: int)
    requires PositionsInGrid(t) && 0 <= n <= |t|
    ensures NonNegative(WindowedGrid(t, tau, n))
    ensures forall k :: 0 <= k < CellCount ==> WindowedGrid(t, tau, n)[k] <= FrequencyGrid(t, n)[k]
    ensures Sum(WindowedGrid(t, tau, n)) <= n
  {
    if n == 0 {
      SumOfZeros(Zeros());
    } else {
      WindowedBoundedByFrequency(t, tau, n - 1);
      var g := WindowedGrid(t, tau, n - 1);
      var k := Index(Cell(t[n - 1]));
      if Scored(t, tau, n - 1) {
        SumUpdate(g, k, g[k] + 1);
      }
    }
  }

  /** What record `i` adds: nothing to any other cell; to its own cell 1 when
      it opens its run, whatever `tau` is, and otherwise 1 exactly when ten
      times the sum of `r` over the earlier records of its run is at most `tau`. */
  lemma RecordContribution(t: seq<Record>, tau: int, i: int)
    requires PositionsInGrid(t) && 0 <= i < |t|
    ensures forall k :: 0 <= k < CellCount && k != Index(Cell(t[i])) ==>
              WindowedGrid(t, tau, i + 1)[k] == WindowedGrid(t, tau, i)[k]
    ensures IsRunStart(t, i) ==>
              WindowedGrid(t, tau, i + 1)[Index(Cell(t[i]))] == WindowedGrid(t, tau, i)[Index(Cell(t[i]))] + 1
    ensures !IsRunStart(t, i) ==>
              (WindowedGrid(t, tau, i + 1)[Index(Cell(t[i]))] == WindowedGrid(t, tau, i)[Index(Cell(t[i]))] + 1
               <==> 10 * SumR(t, RunStart(t, i), i) <= tau)
    ensures !IsRunStart(t, i) && 10 * SumR(t, RunStart(t, i), i) > tau ==>
              WindowedGrid(t, tau, i + 1) == WindowedGrid(t, tau, i)
  {
    IndexInRange(Cell(t[i]));
  }

  /** `fill_scores_in_cells`: zero the grid, then walk the trace keeping the
      current vehicle and its elapsed-time accumulator. A record of the same
      vehicle scores when the accumulator is at most `tau`; a record of a new
      vehicle resets the accumulator and always scores; the accumulator then
      advances by `10 * r`. (The unused `number_of_contacts` argument is dropped.) */
  method FillScoresInCells(t: seq<Record>, cells: array<int>, tau: int)
    requires PositionsInGrid(t) && cells.Length == CellCount && tau >= 0
    modifies cells
    ensures cells[..] == WindowedGrid(t, tau, |t|)
  {
    ResetCells(cells);
    assert cells[..] == Zeros();
    var currentTime := 0;
    var currentVehicle := -1;
    var i := 0;
    while i < |t|
      invariant 0 <= i <= |t|
      invariant cells[..] == WindowedGrid(t, tau, i)
      invariant i == 0 ==> currentVehicle == -1 && currentTime == 0
      invariant i > 0 ==> currentVehicle == t[i - 1].vehicle && currentTime == 10 * SumR(t, RunStart(t, i - 1), i)
    {
      var k := Index(Cell(t[i]));
      IndexInRange(Cell(t[i]));
      if currentVehicle == t[i].vehicle {
        if currentTime <= tau {
          cells[k] := cells[k] + 1;
        }
      } else {
        currentTime := 0;
        currentVehicle := t[i].vehicle;
        cells[k] := cells[k] + 1;
      }
      currentTime := currentTime + 10 * t[i].r;
      i := i + 1;
    }
  }
}
