/** Repeated extract-max, the selection step every policy is built from: the
    top-K loops of baseline and greedy, and each restricted candidate list of
    GRASP. Stated on cell indices; `Grid.Indices` maps a placement onto them. */
module Selection {
  import opened Grid

  /** The cells `n` successive extract-max calls return, starting from grid
      `s`: each call takes the first maximum of the grid with the earlier picks
      already zeroed. */
  ghost function Extracted(s: seq<int>, n: int): (r: seq<int>)
    requires |s| >= 1 && n >= 0
    ensures |r| == n
    ensures forall j :: 0 <= j < n ==> 0 <= r[j] < |s|
  {
    if n == 0 then []
    else
      var p := Extracted(s, n - 1);
      p + [FirstMaxIndex(Zeroed(s, p))]
  }

  function Min(a: int, b: int): int {
    if a < b then a else b
  }

  /** The first `j` of `n` extractions are the extractions of a `j`-long run. */
  lemma {:induction false} ExtractedPrefix(s: seq<int>, n: int, j: int)
    requires |s| >= 1 && 0 <= j <= n
    ensures Extracted(s, n)[..j] == Extracted(s, j)
    decreases n
  {
    if j < n {
      ExtractedPrefix(s, n - 1, j);
      PrefixOfPrefix(Extracted(s, n), Extracted(s, n - 1), Extracted(s, j), j);
    }
  }

  lemma PrefixOfPrefix(r: seq<int>, p: seq<int>, q: seq<int>, j: int)
    requires 0 <= j <= |p| < |r| && r[..|p|] == p && p[..j] == q
    ensures r[..j] == q
  {
    assert r[..j] == r[..|p|][..j];
  }

  /** Pick `j` is the first maximum of the grid left after the picks before it. */
  lemma ExtractedAt(s: seq<int>, n: int, j: int)
    requires |s| >= 1 && 0 <= j < n
    ensures Extracted(s, n)[j] == FirstMaxIndex(Zeroed(s, Extracted(s, n)[..j]))
  {
    ExtractedPrefix(s, n, j + 1);
    ExtractedPrefix(s, n, j);
    assert Extracted(s, n)[j] == Extracted(s, j + 1)[j];
  }

  /** What holds of the first `n` picks while non-zero cells remain. */
  predicate PicksAreTopK(s: seq<int>, r: seq<int>) {
    && (forall j :: 0 <= j < |r| ==> 0 <= r[j] < |s| && s[r[j]] > 0)
    && (forall a, b :: 0 <= a < b < |r| ==> r[a] != r[b])
    && (forall j, u :: 0 <= j < |r| && 0 <= u < |s| && u !in r ==> s[u] <= s[r[j]])
  }

  /** While non-zero cells remain (`n` at most their number, scores
      non-negative), the picks are distinct non-zero cells, each scoring at
      least as much as every cell not picked, and each pick zeroes exactly one
      more non-zero cell. */
  lemma {:induction false} ExtractedIsTopK(s: seq<int>, n: int)
    requires |s| >= 1 && NonNegative(s) && 0 <= n <= CountNonZero(s)
    ensures PicksAreTopK(s, Extracted(s, n))
    ensures CountNonZero(Zeroed(s, Extracted(s, n))) == CountNonZero(s) - n
  {
    if n == 0 {
      assert Zeroed(s, []) == s;
    } else {
      ExtractedIsTopK(s, n - 1);
      PickStep(s, Extracted(s, n - 1));
    }
  }

  /** One more extract-max keeps the top-K bundle while non-zero cells remain. */
  lemma PickStep(s: seq<int>, p: seq<int>)
    requires |s| >= 1 && NonNegative(s) && PicksAreTopK(s, p)
    requires CountNonZero(Zeroed(s, p)) == CountNonZero(s) - |p| > 0
    ensures PicksAreTopK(s, p + [FirstMaxIndex(Zeroed(s, p))])
    ensures CountNonZero(Zeroed(s, p + [FirstMaxIndex(Zeroed(s, p))])) == CountNonZero(s) - |p| - 1
  {
    var w := Zeroed(s, p);
    var m := FirstMaxIndex(w);
    assert NonNegative(w);
    FirstMaxPositive(w);
    assert m !in p;
    assert w[m] == s[m];
    var r := p + [m];
    forall j | 0 <= j < |r| ensures 0 <= r[j] < |s| && s[r[j]] > 0 {
      if j < |p| {
        assert r[j] == p[j];
      }
    }
    forall a, b | 0 <= a < b < |r| ensures r[a] != r[b] {
      if b < |p| {
        assert r[a] == p[a] && r[b] == p[b];
      } else {
        assert r[a] == p[a] && r[b] == m;
        assert p[a] in p;
      }
    }
    forall j, u | 0 <= j < |r| && 0 <= u < |s| && u !in r
      ensures s[u] <= s[r[j]]
    {
      assert u !in p;
      assert w[u] == s[u];
      if j < |p| {
        assert r[j] == p[j];
      }
    }
    ZeroedAppend(s, p, m);
    CountNonZeroClear(w, m);
  }

  /** Scores along the picks never increase, and equal scores come out in
      ascending cell order, i.e. lowest x first, then lowest y. */
  lemma PicksDescending(s: seq<int>, n: int, a: int, b: int)
    requires |s| >= 1 && NonNegative(s) && 0 <= n <= CountNonZero(s)
    requires 0 <= a < b < n
    ensures s[Extracted(s, n)[a]] >= s[Extracted(s, n)[b]]
    ensures s[Extracted(s, n)[a]] == s[Extracted(s, n)[b]] ==> Extracted(s, n)[a] < Extracted(s, n)[b]
  {
    var r := Extracted(s, n);
    ExtractedIsTopK(s, n);
    var before := r[..a];
    ExtractedAt(s, n, a);
    var w := Zeroed(s, before);
    assert IsFirstMax(w, r[a]);
    assert r[b] !in before;
    assert r[a] !in before;
    assert w[r[b]] == s[r[b]] && w[r[a]] == s[r[a]];
  }

  /** Once the non-zero cells are used up, every further pick is cell 0,
      i.e. (0,0): the scan never leaves its starting cell on an all-zero grid. */
  lemma ExhaustedPicksAreOrigin(s: seq<int>, n: int, j: int)
    requires |s| >= 1 && NonNegative(s) && CountNonZero(s) <= j < n
    ensures Extracted(s, n)[j] == 0
  {
    var c := CountNonZero(s);
    ExtractedIsTopK(s, c);
    var pc := Extracted(s, c);
    NoNonZeroIsAllZero(Zeroed(s, pc));
    var r := Extracted(s, n);
    ExtractedPrefix(s, n, c);
    ExtractedAt(s, n, j);
    var w := Zeroed(s, r[..j]);
    forall k | 0 <= k < |s| ensures w[k] == 0 {
      assert k in pc ==> k in r[..j];
      assert Zeroed(s, pc)[k] == 0;
    }
    FirstMaxOfZeroGridIsOrigin(w);
  }

  /** Zeroing distinct non-zero cells removes exactly that many from the
      non-zero count. */
  lemma {:induction false} ZeroedCount(s: seq<int>, p: seq<int>)
    requires forall j :: 0 <= j < |p| ==> 0 <= p[j] < |s| && s[p[j]] != 0
    requires forall a, b :: 0 <= a < b < |p| ==> p[a] != p[b]
    ensures CountNonZero(Zeroed(s, p)) == CountNonZero(s) - |p|
  {
    if |p| == 0 {
      assert Zeroed(s, p) == s;
    } else {
      var q, m := p[..|p| - 1], p[|p| - 1];
      assert p == q + [m];
      ZeroedCount(s, q);
      assert m !in q by {
        forall a | 0 <= a < |q| ensures q[a] != m {
          assert q[a] == p[a];
        }
      }
      ZeroedAppend(s, q, m);
      CountNonZeroClear(Zeroed(s, q), m);
    }
  }

  /** A placement is a true top-K of grid `s`: on the grid, pairwise distinct,
      every cell non-zero, every pick at least as good as every cell left
      out, and the picks in non-increasing score order with ties in ascending
      (x, then y) order. */
  ghost predicate IsTopKPlacement(s: seq<int>, sol: seq<Pos>)
    requires |s| == CellCount
  {
    && AllInGrid(sol)
    && (forall a, b :: 0 <= a < b < |sol| ==> sol[a] != sol[b])
    && (forall j :: 0 <= j < |sol| ==> s[Index(sol[j])] > 0)
    && (forall j, p :: 0 <= j < |sol| && InGrid(p) && p !in sol ==> s[Index(p)] <= s[Index(sol[j])])
    && (forall a, b :: 0 <= a < b < |sol| ==>
          && s[Index(sol[a])] >= s[Index(sol[b])]
          && (s[Index(sol[a])] == s[Index(sol[b])] ==> Index(sol[a]) < Index(sol[b])))
  }

  /** Positions whose cell indices are the first `n` extractions, while
      non-zero cells remain, form a top-K placement. */
  lemma SelectedIsTopK(s: seq<int>, sol: seq<Pos>, n: int)
    requires |s| == CellCount && NonNegative(s) && 0 <= n <= CountNonZero(s)
    requires AllInGrid(sol) && Indices(sol) == Extracted(s, n)
    ensures IsTopKPlacement(s, sol)
  {
    ExtractedIsTopK(s, n);
    SelectedDistinct(s, sol);
    SelectedDominate(s, sol);
    forall a, b | 0 <= a < b < |sol|
      ensures s[Index(sol[a])] >= s[Index(sol[b])]
      ensures s[Index(sol[a])] == s[Index(sol[b])] ==> Index(sol[a]) < Index(sol[b])
    {
      PicksDescending(s, n, a, b);
    }
  }

  lemma SelectedDistinct(s: seq<int>, sol: seq<Pos>)
    requires |s| == CellCount && PicksAreTopK(s, Indices(sol))
    ensures forall a, b :: 0 <= a < b < |sol| ==> sol[a] != sol[b]
    ensures forall j :: 0 <= j < |sol| ==> s[Index(sol[j])] > 0
  {
    var r := Indices(sol);
    forall a, b | 0 <= a < b < |sol| ensures sol[a] != sol[b] {
      assert r[a] != r[b];
    }
  }

  lemma SelectedDominate(s: seq<int>, sol: seq<Pos>)
    requires |s| == CellCount && AllInGrid(sol) && PicksAreTopK(s, Indices(sol))
    ensures forall j, p :: 0 <= j < |sol| && InGrid(p) && p !in sol ==> s[Index(p)] <= s[Index(sol[j])]
  {
    var r := Indices(sol);
    forall j, p | 0 <= j < |sol| && InGrid(p) && p !in sol
      ensures s[Index(p)] <= s[Index(sol[j])]
    {
      IndexInRange(p);
      forall k | 0 <= k < |r| ensures r[k] != Index(p) {
        IndexInjective(p, sol[k]);
      }
      assert Index(p) !in r;
    }
  }

  /** One turn of the selection loop: the grid before the call, the cell the
      call returns and the grid after it keep the loop's invariant. */
  lemma SelectStep(s: seq<int>, picks: seq<Pos>, chosen: Pos, before: seq<int>, after: seq<int>)
    requires |s| >= 1 && Progress(s, picks, before)
    requires InGrid(chosen) && 0 <= Index(chosen) < |s| && Index(chosen) == FirstMaxIndex(before)
    requires after == before[Index(chosen) := 0]
    ensures Progress(s, picks + [chosen], after)
  {
    var idx, m := Indices(picks), Index(chosen);
    assert Indices(picks + [chosen]) == idx + [m];
    ExtractedStep(s, idx, m);
    ZeroedAppend(s, idx, m);
  }

  lemma ExtractedStep(s: seq<int>, idx: seq<int>, m: int)
    requires |s| >= 1 && idx == Extracted(s, |idx|) && m == FirstMaxIndex(Zeroed(s, idx))
    ensures Extracted(s, |idx| + 1) == idx + [m]
  {
  }

  /** The selection loop of `baseline` and `greedy`, and the loop that fills
      a restricted candidate list in `n_deployment`: `count` successive
      extract-max calls, their cells collected in pick order. */
  method SelectTop(cells: array<int>, count: int) returns (picks: seq<Pos>)
    requires cells.Length == CellCount && count >= 0
    modifies cells
    ensures |picks| == count && AllInGrid(picks)
    ensures Indices(picks) == Extracted(old(cells[..]), count)
    ensures cells[..] == Zeroed(old(cells[..]), Indices(picks))
  {
    ghost var s := cells[..];
    assert Zeroed(s, []) == s;
    picks := [];
    for i := 0 to count
      invariant |picks| == i
      invariant Progress(s, picks, cells[..])
    {
      ghost var before := cells[..];
      var chosen := ExtractMax(cells);
      SelectStep(s, picks, chosen, before, cells[..]);
      picks := picks + [chosen];
    }
  }

  /** The selection loop's invariant: the cells picked so far are the first
      extractions from the starting grid `s`, and the grid now holds `s` with
      those cells zeroed. */
  ghost predicate Progress(s: seq<int>, picks: seq<Pos>, cur: seq<int>)
    requires |s| >= 1
  {
    AllInGrid(picks) && Indices(picks) == Extracted(s, |picks|) && cur == Zeroed(s, Indices(picks))
  }

  /** The score grid {(1,1): 5, (2,2): 5, (3,3): 3}, every other cell 0. */
  predicate IsExampleGrid(s: seq<int>) {
    && |s| == CellCount
    && (forall k :: 0 <= k < CellCount ==>
          s[k] == (if k == Index(Pos(1, 1)) || k == Index(Pos(2, 2)) then 5
                   else if k == Index(Pos(3, 3)) then 3 else 0))
  }

  lemma ExampleGridHasThreeFrequented(s: seq<int>)
    requires IsExampleGrid(s)
    ensures CountNonZero(s) == 3
  {
    CountNonZeroIsCardinality(s);
    var nz := NonZeroCells(s);
    forall k | k in nz ensures k in {101, 202, 303} {
      assert s[k] != 0;
    }
    assert s[101] == 5 && s[202] == 5 && s[303] == 3;
    assert nz == {101, 202, 303};
  }

  lemma ExampleGridFirstPick(s: seq<int>)
    requires IsExampleGrid(s)
    ensures FirstMaxIndex(Zeroed(s, [])) == 101
  {
    assert Zeroed(s, []) == s;
    assert s[101] == 5;
    assert IsFirstMax(s, 101);
    FirstMaxUnique(s, 101);
  }

  lemma ExampleGridSecondPick(s: seq<int>)
    requires IsExampleGrid(s)
    ensures FirstMaxIndex(Zeroed(s, [101])) == 202
  {
    var w := Zeroed(s, [101]);
    assert w[202] == 5;
    assert IsFirstMax(w, 202);
    FirstMaxUnique(w, 202);
  }

  /** On that grid there are three frequented cells; with K = 2 the picks are
      (1,1) then (2,2), the tie between them going to the lower x, and (3,3) is
      left out. */
  lemma TopTwoOfExampleGrid(s: seq<int>)
    requires IsExampleGrid(s)
    ensures CountNonZero(s) == 3
    ensures Extracted(s, Min(2, CountNonZero(s))) == [Index(Pos(1, 1)), Index(Pos(2, 2))]
  {
    ExampleGridHasThreeFrequented(s);
    ExampleGridFirstPick(s);
    ExampleGridSecondPick(s);
    assert Extracted(s, 1) == [101];
    assert Extracted(s, 2) == [101, 202];
  }
}
