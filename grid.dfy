/** The dense cell grid that all three placement programs score, scan and zero.
    The C programs hold it as `int cells[100][100]`; C lays that out row-major,
    so cell (x, y) is element x * 100 + y of one flat block of 10000 ints, and
    that flat block is what this module works on. */
module Grid {

  const Width := 100
  const Height := 100
  const CellCount := 10000

  /** A grid coordinate, as the `x`/`y` pair the programs return and print. */
  datatype Pos = Pos(x: int, y: int)

  predicate InGrid(p: Pos) {
    0 <= p.x < Width && 0 <= p.y < Height
  }

  /** Position of cell `p` in the row-major layout. */
  function Index(p: Pos): int {
    p.x * Height + p.y
  }

  lemma IndexInRange(p: Pos)
    requires InGrid(p)
    ensures 0 <= Index(p) < CellCount
  {
  }

  /** Two in-grid positions share a cell index only when they are the same position. */
  lemma IndexInjective(p: Pos, q: Pos)
    requires InGrid(p) && InGrid(q)
    ensures Index(p) == Index(q) <==> p == q
  {
  }

  /** The cell indices of a placement, in placement order. */
  function Indices(sol: seq<Pos>): (r: seq<int>)
    ensures |r| == |sol|
    ensures forall j :: 0 <= j < |sol| ==> r[j] == Index(sol[j])
  {
    seq(|sol|, j requires 0 <= j < |sol| => Index(sol[j]))
  }

  predicate AllInGrid(sol: seq<Pos>) {
    forall j :: 0 <= j < |sol| ==> InGrid(sol[j])
  }

  predicate NonNegative(s: seq<int>) {
    forall k :: 0 <= k < |s| ==> s[k] >= 0
  }

  predicate AllZero(s: seq<int>) {
    forall k :: 0 <= k < |s| ==> s[k] == 0
  }

  /** `b` is where a scan in index order with a strict `>` ends up: it holds the
      largest value of `s`, and every earlier cell holds strictly less. */
  predicate IsFirstMax(s: seq<int>, b: int) {
    && 0 <= b < |s|
    && (forall k :: 0 <= k < |s| ==> s[k] <= s[b])
    && (forall k :: 0 <= k < b ==> s[k] < s[b])
  }

  /** The cell a strict-`>` scan of `s[..n]` keeps, starting from cell 0. */
  function FirstMaxIn(s: seq<int>, n: int): (b: int)
    requires 1 <= n <= |s|
    ensures 0 <= b < n
    ensures forall k :: 0 <= k < n ==> s[k] <= s[b]
    ensures forall k :: 0 <= k < b ==> s[k] < s[b]
    decreases n
  {
    if n == 1 then 0
    else
      var b := FirstMaxIn(s, n - 1);
      if s[n - 1] > s[b] then n - 1 else b
  }

  /** The first maximum of a non-empty grid. It exists because the scan
      `FirstMaxIn` finds one, and `FirstMaxUnique` shows there is no other. */
  ghost function FirstMaxIndex(s: seq<int>): (b: int)
    requires |s| >= 1
    ensures IsFirstMax(s, b)
  {
    assert IsFirstMax(s, FirstMaxIn(s, |s|));
    var b :| IsFirstMax(s, b); b
  }

  /** The first-maximum property pins the cell down: there is exactly one,
      and it is the cell the scan keeps. */
  lemma FirstMaxUnique(s: seq<int>, b: int)
    requires IsFirstMax(s, b)
    ensures b == FirstMaxIndex(s)
    ensures b == FirstMaxIn(s, |s|)
  {
    var m, f := FirstMaxIndex(s), FirstMaxIn(s, |s|);
    assert s[m] == s[b] && s[f] == s[b];
  }

  /** On a grid whose scores are all zero the scan never moves off cell 0, i.e. (0,0). */
  lemma FirstMaxOfZeroGridIsOrigin(s: seq<int>)
    requires |s| >= 1 && AllZero(s)
    ensures FirstMaxIndex(s) == 0
  {
    assert s[0] == 0;
  }

  /** Number of cells with a non-zero score, counted in scan order. */
  function CountNonZero(s: seq<int>): (n: int)
    ensures 0 <= n <= |s|
  {
    if |s| == 0 then 0
    else CountNonZero(s[..|s| - 1]) + (if s[|s| - 1] != 0 then 1 else 0)
  }

  /** The non-zero cells of `s`, as a set of indices. */
  function NonZeroCells(s: seq<int>): set<int> {
    set k | 0 <= k < |s| && s[k] != 0
  }

  /** The scan-order count is the size of the set of non-zero cells. */
  lemma {:induction false} CountNonZeroIsCardinality(s: seq<int>)
    ensures CountNonZero(s) == |NonZeroCells(s)|
  {
    if |s| > 0 {
      var t := s[..|s| - 1];
      CountNonZeroIsCardinality(t);
      var last := |s| - 1;
      if s[last] != 0 {
        assert NonZeroCells(s) == NonZeroCells(t) + {last};
      } else {
        assert NonZeroCells(s) == NonZeroCells(t);
      }
    }
  }

  /** Zeroing a non-zero cell removes exactly that one cell from the non-zero count. */
  lemma CountNonZeroClear(s: seq<int>, m: int)
    requires 0 <= m < |s| && s[m] != 0
    ensures CountNonZero(s[m := 0]) == CountNonZero(s) - 1
  {
    CountNonZeroIsCardinality(s);
    CountNonZeroIsCardinality(s[m := 0]);
    assert NonZeroCells(s[m := 0]) == NonZeroCells(s) - {m};
  }

  /** When some cell is non-zero on a non-negative grid, the scan's pick is positive. */
  lemma FirstMaxPositive(s: seq<int>)
    requires NonNegative(s) && CountNonZero(s) > 0
    ensures s[FirstMaxIndex(s)] > 0
  {
    CountNonZeroIsCardinality(s);
    assert NonZeroCells(s) != {};
    var k :| k in NonZeroCells(s);
    assert s[k] > 0;
  }

  /** A grid with no non-zero cell is all zero. */
  lemma NoNonZeroIsAllZero(s: seq<int>)
    requires CountNonZero(s) == 0
    ensures AllZero(s)
  {
    CountNonZeroIsCardinality(s);
    forall k | 0 <= k < |s| ensures s[k] == 0 {
      assert s[k] != 0 ==> k in NonZeroCells(s);
    }
  }

  /** Total score over the grid. */
  function Sum(s: seq<int>): int {
    if |s| == 0 then 0 else Sum(s[..|s| - 1]) + s[|s| - 1]
  }

  /** `s` with every cell listed in `picked` set to 0. */
  function Zeroed(s: seq<int>, picked: seq<int>): (r: seq<int>)
    ensures |r| == |s|
    ensures forall k :: 0 <= k < |s| ==> r[k] == (if k in picked then 0 else s[k])
  {
    seq(|s|, k requires 0 <= k < |s| => if k in picked then 0 else s[k])
  }

  lemma ZeroedAppend(s: seq<int>, picked: seq<int>, m: int)
    requires 0 <= m < |s|
    ensures Zeroed(s, picked)[m := 0] == Zeroed(s, picked + [m])
  {
    var a, b := Zeroed(s, picked)[m := 0], Zeroed(s, picked + [m]);
    forall k | 0 <= k < |s| ensures a[k] == b[k] {
      assert (k in picked + [m]) <==> (k in picked || k == m);
    }
  }

  /** `reset_cells`: every cell of the grid becomes 0. */
  method ResetCells(cells: array<int>)
    requires cells.Length == CellCount
    modifies cells
    ensures AllZero(cells[..])
  {
    var i := 0;
    while i < Width
      invariant 0 <= i <= Width
      invariant forall k :: 0 <= k < i * Height ==> cells[k] == 0
    {
      var j := 0;
      while j < Height
        invariant 0 <= j <= Height
        invariant forall k :: 0 <= k < i * Height + j ==> cells[k] == 0
      {
        cells[i * Height + j] := 0;
        j := j + 1;
      }
      i := i + 1;
    }
  }

  /** `get_cell_with_highest_score` / `get_max_cell_coords_and_zero_it`: scan
      the grid row by row with a strict `>`, starting from (0,0), then zero the
      cell found. The pick is the first maximum in (x, then y) order, and no other
      cell changes. */
  method ExtractMax(cells: array<int>) returns (p: Pos)
    requires cells.Length == CellCount
    modifies cells
    ensures InGrid(p)
    ensures IsFirstMax(old(cells[..]), Index(p))
    ensures Index(p) == FirstMaxIndex(old(cells[..]))
    ensures cells[..] == old(cells[..])[Index(p) := 0]
  {
    ghost var s := cells[..];
    var maxX, maxY := 0, 0;
    var i := 0;
    while i < Width
      invariant 0 <= i <= Width
      invariant 0 <= maxX < Width && 0 <= maxY < Height
      invariant cells[..] == s
      invariant maxX * Height + maxY < i * Height || (maxX == 0 && maxY == 0)
      invariant forall k :: 0 <= k < i * Height ==> s[k] <= s[maxX * Height + maxY]
      invariant forall k :: 0 <= k < maxX * Height + maxY ==> s[k] < s[maxX * Height + maxY]
    {
      var j := 0;
      while j < Height
        invariant 0 <= j <= Height
        invariant 0 <= maxX < Width && 0 <= maxY < Height
        invariant cells[..] == s
        invariant maxX * Height + maxY < i * Height + j || (maxX == 0 && maxY == 0)
        invariant forall k :: 0 <= k < i * Height + j ==> s[k] <= s[maxX * Height + maxY]
        invariant forall k :: 0 <= k < maxX * Height + maxY ==> s[k] < s[maxX * Height + maxY]
      {
        if cells[i * Height + j] > cells[maxX * Height + maxY] {
          maxX, maxY := i, j;
        }
        j := j + 1;
      }
      i := i + 1;
    }
    p := Pos(maxX, maxY);
    FirstMaxUnique(s, Index(p));
    cells[maxX * Height + maxY] := 0;
  }

  /** `get_num_frequented_cells`: how many cells have a non-zero score. */
  method CountFrequented(cells: array<int>) returns (n: int)
    requires cells.Length == CellCount
    ensures n == CountNonZero(cells[..])
    ensures n == |NonZeroCells(cells[..])|
  {
    ghost var s := cells[..];
    n := 0;
    var i := 0;
    while i < Width
      invariant 0 <= i <= Width
      invariant n == CountNonZero(s[..i * Height])
    {
      var j := 0;
      while j < Height
        invariant 0 <= j <= Height
        invariant n == CountNonZero(s[..i * Height + j])
      {
        var k := i * Height + j;
        assert s[..k + 1][..k] == s[..k];
        if cells[k] != 0 {
          n := n + 1;
        }
        j := j + 1;
      }
      i := i + 1;
    }
    assert s[..CellCount] == s;
    CountNonZeroIsCardinality(s);
  }
}
