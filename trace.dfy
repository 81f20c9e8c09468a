/** The in-memory mobility trace the three programs read once and then only
    walk: one record per line, records of one vehicle normally adjacent. */
module Trace {
  import opened Grid

  /** Upper bound (exclusive) on vehicle ids: `num_of_contacts` has this many
      counters and is indexed by vehicle id. */
  const MaxVehicles := 80000

  /** One trace line: `vehicle_id;time;grid_x_pos;grid_y_pos;r;`. */
  datatype Record = Record(vehicle: int, time: int, x: int, y: int, r: int)

  function Cell(rec: Record): Pos {
    Pos(rec.x, rec.y)
  }

  /** Every record lies on the grid; the trace reader rejects any that does not. */
  predicate PositionsInGrid(t: seq<Record>) {
    forall i :: 0 <= i < |t| ==> InGrid(Cell(t[i]))
  }

  /** Every vehicle id can index the per-vehicle contact counters. */
  predicate VehicleIdsInRange(t: seq<Record>) {
    forall i :: 0 <= i < |t| ==> 0 <= t[i].vehicle < MaxVehicles
  }

  /** What the coverage evaluator needs of a trace. */
  predicate ValidTrace(t: seq<Record>) {
    PositionsInGrid(t) && VehicleIdsInRange(t)
  }

  /** Record `i` opens a run: it is the first record, or its vehicle differs
      from that of the record before it. */
  predicate IsRunStart(t: seq<Record>, i: int)
    requires 0 <= i < |t|
  {
    i == 0 || t[i - 1].vehicle != t[i].vehicle
  }

  /** Index of the first record of the run that holds record `i`. */
  function RunStart(t: seq<Record>, i: int): (j: int)
    requires 0 <= i < |t|
    ensures 0 <= j <= i
    ensures IsRunStart(t, j)
    ensures forall k :: j <= k <= i ==> t[k].vehicle == t[i].vehicle
    ensures forall k :: j < k <= i ==> !IsRunStart(t, k)
  {
    if IsRunStart(t, i) then i else RunStart(t, i - 1)
  }

  /** Sum of the `r` fields of `t[lo..hi]`. */
  function SumR(t: seq<Record>, lo: int, hi: int): int
    requires 0 <= lo <= hi <= |t|
    decreases hi
  {
    if hi == lo then 0 else SumR(t, lo, hi - 1) + t[hi - 1].r
  }

  /** The distinct vehicle ids of the trace. */
  function Vehicles(t: seq<Record>): set<int> {
    set i | 0 <= i < |t| :: t[i].vehicle
  }
}
