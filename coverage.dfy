/** The coverage evaluator `check_coverage`: how many vehicles meet at least
    `C` RSU contacts inside the time window that opens at the first record of
    their run. The two programs that evaluate coverage differ in one operator of
    the window test (`<=` for GRASP, `<` for greedy); `inclusive` selects it. */
module Coverage {
  import opened Grid
  import opened Trace

  /** The cells a placement puts an RSU on: the 1-cells of the 0/1 mask. */
  function RsuCells(sol: seq<Pos>): set<int> {
    CellSet(Indices(sol))
  }

  function CellSet(cells: seq<int>): set<int> {
    set k | k in cells
  }

  /** The window test: inclusive `time <= start + tau`, or strict `time < start + tau`. */
  predicate InWindow(time: int, startTime: int, tau: int, inclusive: bool) {
    if inclusive then time <= startTime + tau else time < startTime + tau
  }

  /** Record `i` is a contact: it lies on an RSU cell and its time is inside
      the window anchored at the time of the first record of its run. The first
      record of a run is itself tested (the evaluator re-reads it). */
  predicate IsContact(t: seq<Record>, rsu: set<int>, tau: int, inclusive: bool, i: int)
    requires 0 <= i < |t|
  {
    Index(Cell(t[i])) in rsu && InWindow(t[i].time, t[RunStart(t, i)].time, tau, inclusive)
  }

  /** Contacts of vehicle `v` among the first `n` records. */
  function Contacts(t: seq<Record>, rsu: set<int>, tau: int, inclusive: bool, v: int, n: int): (c: int)
    requires 0 <= n <= |t|
    ensures 0 <= c <= n
  {
    if n == 0 then 0
    else
      Contacts(t, rsu, tau, inclusive, v, n - 1)
      + (if t[n - 1].vehicle == v && IsContact(t, rsu, tau, inclusive, n - 1) then 1 else 0)
  }

  /** Counter ids below `n` whose vehicle has at least `c` contacts. */
  function CoveredAmong(t: seq<Record>, rsu: set<int>, tau: int, c: int, inclusive: bool, n: int): set<int> {
    set v | 0 <= v < n && Contacts(t, rsu, tau, inclusive, v, |t|) >= c
  }

  /** The vehicles a placement covers: every counter id with at least `c` contacts. */
  function CoveredVehicles(t: seq<Record>, sol: seq<Pos>, tau: int, c: int, inclusive: bool): set<int> {
    CoveredAmong(t, RsuCells(sol), tau, c, inclusive, MaxVehicles)
  }

  /** The objective value of a placement given by its cell indices. */
  function CoverageOfCells(t: seq<Record>, cells: seq<int>, tau: int, c: int, inclusive: bool): int {
    |CoveredAmong(t, CellSet(cells), tau, c, inclusive, MaxVehicles)|
  }

  /** The objective value: the number of covered vehicles. */
  function CoverageOf(t: seq<Record>, sol: seq<Pos>, tau: int, c: int, inclusive: bool): int {
    CoverageOfCells(t, Indices(sol), tau, c, inclusive)
  }

  lemma RsuCellsAppend(sol: seq<Pos>, p: Pos)
    ensures RsuCells(sol + [p]) == RsuCells(sol) + {Index(p)}
  {
    assert Indices(sol + [p]) == Indices(sol) + [Index(p)];
  }

  /** A vehicle with a contact has a record in the trace. */
  lemma {:induction false} ContactsOnlyForPresentVehicles(t: seq<Record>, rsu: set<int>, tau: int, inclusive: bool, v: int, n: int)
    requires 0 <= n <= |t|
    requires Contacts(t, rsu, tau, inclusive, v, n) > 0
    ensures v in Vehicles(t)
  {
    if Contacts(t, rsu, tau, inclusive, v, n - 1) > 0 {
      ContactsOnlyForPresentVehicles(t, rsu, tau, inclusive, v, n - 1);
    } else {
      assert t[n - 1].vehicle == v;
    }
  }

  lemma SubsetCardinality(a: set<int>, b: set<int>)
    requires a <= b
    ensures |a| <= |b|
  {
    assert b == a + (b - a);
  }

  /** Coverage lies in [0, number of distinct vehicle ids of the trace]. */
  lemma CoverageBounds(t: seq<Record>, sol: seq<Pos>, tau: int, c: int, inclusive: bool)
    requires c > 0
    ensures 0 <= CoverageOf(t, sol, tau, c, inclusive) <= |Vehicles(t)|
  {
    var covered := CoveredVehicles(t, sol, tau, c, inclusive);
    forall v | v in covered ensures v in Vehicles(t) {
      ContactsOnlyForPresentVehicles(t, RsuCells(sol), tau, inclusive, v, |t|);
    }
    SubsetCardinality(covered, Vehicles(t));
  }

  lemma {:induction false} NoRsuNoContacts(t: seq<Record>, tau: int, inclusive: bool, v: int, n: int)
    requires 0 <= n <= |t|
    ensures Contacts(t, {}, tau, inclusive, v, n) == 0
  {
    if n > 0 {
      NoRsuNoContacts(t, tau, inclusive, v, n - 1);
    }
  }

  /** An empty placement covers nobody. */
  lemma EmptyPlacementCoversNone(t: seq<Record>, tau: int, c: int, inclusive: bool)
    requires c > 0
    ensures CoverageOf(t, [], tau, c, inclusive) == 0
  {
    assert RsuCells([]) == {};
    forall v | 0 <= v < MaxVehicles ensures Contacts(t, {}, tau, inclusive, v, |t|) == 0 {
      NoRsuNoContacts(t, tau, inclusive, v, |t|);
    }
    assert CoveredVehicles(t, [], tau, c, inclusive) == {};
  }

  /** More RSU cells, or the inclusive window instead of the strict one, never
      lose a contact. */
  lemma {:induction false} ContactsMonotone(t: seq<Record>, rsu: set<int>, rsu': set<int>, tau: int,
                                            inclusive: bool, inclusive': bool, v: int, n: int)
    requires 0 <= n <= |t|
    requires rsu <= rsu' && (inclusive ==> inclusive')
    ensures Contacts(t, rsu, tau, inclusive, v, n) <= Contacts(t, rsu', tau, inclusive', v, n)
  {
    if n > 0 {
      ContactsMonotone(t, rsu, rsu', tau, inclusive, inclusive', v, n - 1);
    }
  }

  /** Coverage is monotone in the RSU cells and in the window test. */
  lemma CoverageMonotone(t: seq<Record>, sol: seq<Pos>, sol': seq<Pos>, tau: int, c: int,
                         inclusive: bool, inclusive': bool)
    requires RsuCells(sol) <= RsuCells(sol') && (inclusive ==> inclusive')
    ensures CoverageOf(t, sol, tau, c, inclusive) <= CoverageOf(t, sol', tau, c, inclusive')
  {
    var a, b := CoveredVehicles(t, sol, tau, c, inclusive), CoveredVehicles(t, sol', tau, c, inclusive');
    forall v | v in a ensures v in b {
      ContactsMonotone(t, RsuCells(sol), RsuCells(sol'), tau, inclusive, inclusive', v, |t|);
    }
    SubsetCardinality(a, b);
  }

  /** Adding a cell to a placement never lowers its coverage. */
  lemma AddingRsuNeverLowersCoverage(t: seq<Record>, sol: seq<Pos>, p: Pos, tau: int, c: int, inclusive: bool)
    ensures CoverageOf(t, sol, tau, c, inclusive) <= CoverageOf(t, sol + [p], tau, c, inclusive)
  {
    RsuCellsAppend(sol, p);
    CoverageMonotone(t, sol, sol + [p], tau, c, inclusive, inclusive);
  }

  /** The inclusive window of GRASP covers at least the vehicles the strict
      window of greedy covers. */
  lemma InclusiveWindowCoversAtLeastStrict(t: seq<Record>, sol: seq<Pos>, tau: int, c: int)
    ensures CoverageOf(t, sol, tau, c, false) <= CoverageOf(t, sol, tau, c, true)
  {
    CoverageMonotone(t, sol, sol, tau, c, false, true);
  }

  /** Vehicle 1 at (1,1) at times 0 and 5, `tau` = 50, `C` = 1, one RSU at
      (1,1): both records are contacts (the first one through the re-read of a
      run's first record), so exactly one vehicle is covered, under either
      window test. */
  lemma SingleVehicleScenario(inclusive: bool)
    ensures CoverageOf([Record(1, 0, 1, 1, 1), Record(1, 5, 1, 1, 0)], [Pos(1, 1)], 50, 1, inclusive) == 1
  {
    var t := [Record(1, 0, 1, 1, 1), Record(1, 5, 1, 1, 0)];
    var sol := [Pos(1, 1)];
    var rsu := RsuCells(sol);
    RsuCellsAppend([], Pos(1, 1));
    assert RsuCells([]) == {};
    assert [] + [Pos(1, 1)] == sol;
    assert rsu == {101};
    assert RunStart(t, 0) == 0 && RunStart(t, 1) == 0;
    assert Contacts(t, rsu, 50, inclusive, 1, 2) == 2;
    forall v | v in CoveredVehicles(t, sol, 50, 1, inclusive) ensures v == 1 {
      assert Contacts(t, rsu, 50, inclusive, v, 2) >= 1;
    }
    assert 1 in CoveredVehicles(t, sol, 50, 1, inclusive);
    assert CoveredVehicles(t, sol, 50, 1, inclusive) == {1};
  }

  /** `reset_vehicles`: the first `count` counters become 0, the rest are kept. */
  method ResetVehicles(vehicles: array<int>, count: int)
    requires 0 <= count <= vehicles.Length
    modifies vehicles
    ensures forall v :: 0 <= v < count ==> vehicles[v] == 0
    ensures forall v :: count <= v < vehicles.Length ==> vehicles[v] == old(vehicles[v])
  {
    var i := 0;
    while i < count
      invariant 0 <= i <= count
      invariant forall v :: 0 <= v < i ==> vehicles[v] == 0
      invariant forall v :: count <= v < vehicles.Length ==> vehicles[v] == old(vehicles[v])
    {
      vehicles[i] := 0;
      i := i + 1;
    }
  }

  /** Phase one of `check_coverage`: clear the mask and set a 1 on every placement cell. */
  method MarkRsuCells(solution: seq<Pos>, cells: array<int>)
    requires AllInGrid(solution) && cells.Length == CellCount
    modifies cells
    ensures forall k :: 0 <= k < CellCount ==> cells[k] == (if k in RsuCells(solution) then 1 else 0)
  {
    ResetCells(cells);
    var i := 0;
    while i < |solution|
      invariant 0 <= i <= |solution|
      invariant forall k :: 0 <= k < CellCount ==> cells[k] == (if k in RsuCells(solution[..i]) then 1 else 0)
    {
      IndexInRange(solution[i]);
      cells[Index(solution[i])] := 1;
      RsuCellsAppend(solution[..i], solution[i]);
      assert solution[..i + 1] == solution[..i] + [solution[i]];
      i := i + 1;
    }
    assert solution[..|solution|] == solution;
  }

  /** Phase two: walk the trace counting each vehicle's contacts. */
  method WalkTrace(t: seq<Record>, ghost rsu: set<int>, numOfContacts: array<int>, cells: array<int>,
                   tau: int, inclusive: bool)
    requires ValidTrace(t)
    requires numOfContacts.Length == MaxVehicles && cells.Length == CellCount
    requires forall k :: 0 <= k < CellCount ==> cells[k] == (if k in rsu then 1 else 0)
    requires forall v :: 0 <= v < MaxVehicles ==> numOfContacts[v] == 0
    modifies numOfContacts
    ensures forall v :: 0 <= v < MaxVehicles ==> numOfContacts[v] == Contacts(t, rsu, tau, inclusive, v, |t|)
  {
    var startTime := -1;
    var currentVehicle := -1;
    var i := 0;
    while i < |t|
      invariant 0 <= i <= |t|
      invariant forall v :: 0 <= v < MaxVehicles ==> numOfContacts[v] == Contacts(t, rsu, tau, inclusive, v, i)
      invariant || (i == 0 && currentVehicle == -1)
                || (0 < i && currentVehicle == t[i - 1].vehicle && startTime == t[RunStart(t, i - 1)].time)
                || (i < |t| && currentVehicle == t[i].vehicle && startTime == t[i].time && RunStart(t, i) == i)
      decreases |t| - i, if i < |t| && currentVehicle == t[i].vehicle then 0 else 1
    {
      if currentVehicle == t[i].vehicle {
        var k := Index(Cell(t[i]));
        IndexInRange(Cell(t[i]));
        if cells[k] == 1 && InWindow(t[i].time, startTime, tau, inclusive) {
          numOfContacts[t[i].vehicle] := numOfContacts[t[i].vehicle] + 1;
        }
      } else {
        currentVehicle := t[i].vehicle;
        startTime := t[i].time;
        i := i - 1;
      }
      i := i + 1;
    }
  }

  /** Phase three: count the counters at or above `c`. */
  method CountCovered(ghost t: seq<Record>, ghost rsu: set<int>, numOfContacts: array<int>, ghost tau: int, c: int,
                      ghost inclusive: bool)
    returns (covered: int)
    requires numOfContacts.Length == MaxVehicles
    requires forall v :: 0 <= v < MaxVehicles ==> numOfContacts[v] == Contacts(t, rsu, tau, inclusive, v, |t|)
    ensures covered == |CoveredAmong(t, rsu, tau, c, inclusive, MaxVehicles)|
  {
    covered := 0;
    var i := 0;
    while i < MaxVehicles
      invariant 0 <= i <= MaxVehicles
      invariant covered == |CoveredAmong(t, rsu, tau, c, inclusive, i)|
    {
      if numOfContacts[i] >= c {
        assert CoveredAmong(t, rsu, tau, c, inclusive, i + 1) == CoveredAmong(t, rsu, tau, c, inclusive, i) + {i};
        covered := covered + 1;
      } else {
        assert CoveredAmong(t, rsu, tau, c, inclusive, i + 1) == CoveredAmong(t, rsu, tau, c, inclusive, i);
      }
      i := i + 1;
    }
  }

  /** `check_coverage`, its three loops kept as the three phases above.
      `numOfContacts` and `cells` are scratch arrays owned by the caller and
      overwritten; the result depends on neither's old content, so repeated
      calls with the same arguments give the same value. */
  method CheckCoverage(t: seq<Record>, solution: seq<Pos>, numOfContacts: array<int>, cells: array<int>,
                       tau: int, c: int, inclusive: bool) returns (covered: int)
    requires ValidTrace(t) && AllInGrid(solution)
    requires numOfContacts.Length == MaxVehicles && cells.Length == CellCount
    modifies numOfContacts, cells
    ensures covered == CoverageOf(t, solution, tau, c, inclusive)
    ensures forall v :: 0 <= v < MaxVehicles ==>
              numOfContacts[v] == Contacts(t, RsuCells(solution), tau, inclusive, v, |t|)
    ensures forall k :: 0 <= k < CellCount ==> cells[k] == (if k in RsuCells(solution) then 1 else 0)
  {
    assert numOfContacts != cells;
    ResetVehicles(numOfContacts, MaxVehicles);
    MarkRsuCells(solution, cells);
    WalkTrace(t, RsuCells(solution), numOfContacts, cells, tau, inclusive);
    covered := CountCovered(t, RsuCells(solution), numOfContacts, tau, c, inclusive);
  }
}
