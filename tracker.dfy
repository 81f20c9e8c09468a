/** The best-solution bookkeeping of `n_deployment`: after every GRASP
    iteration the coverage of that iteration's placement is compared with the
    best so far; only a strict improvement replaces the stored placement and
    appends an `(iteration, coverage)` line to the log. */
module BestTracker {

  datatype Option<T> = None | Some(value: T)

  /** What the tracker holds after some iterations: the best coverage, the
      iteration whose placement is stored (None while nothing was ever
      stored) and the improvement log. */
  datatype Tracked = Tracked(best: int, bestIteration: Option<int>, log: seq<(int, int)>)

  /** One comparison: iteration `iteration` reached `coverage`. */
  function Step(st: Tracked, iteration: int, coverage: int): Tracked {
    if coverage > st.best then Tracked(coverage, Some(iteration), st.log + [(iteration, coverage)])
    else st
  }

  /** The tracker after iterations 0 .. |covs| - 1 reached coverages `covs`,
      starting from best coverage 0, nothing stored and an empty log. */
  function Track(covs: seq<int>): Tracked {
    if |covs| == 0 then Tracked(0, None, [])
    else Step(Track(covs[..|covs| - 1]), |covs| - 1, covs[|covs| - 1])
  }

  /** Iteration `i` beats 0 and every iteration before it. */
  predicate IsRecord(covs: seq<int>, i: int) {
    0 <= i < |covs| && covs[i] > 0 && forall j :: 0 <= j < i ==> covs[j] < covs[i]
  }

  /** The final objective is max(0, every iteration's coverage); the stored
      placement is that of the first iteration reaching it, and nothing is
      stored exactly when no iteration beats 0. */
  lemma {:induction false} TrackIsRunningMaximum(covs: seq<int>)
    ensures Track(covs).best >= 0
    ensures forall i :: 0 <= i < |covs| ==> covs[i] <= Track(covs).best
    ensures Track(covs).bestIteration.None? <==> Track(covs).best == 0
    ensures Track(covs).bestIteration.Some? ==> IsRecord(covs, Track(covs).bestIteration.value)
    ensures Track(covs).bestIteration.Some? ==> covs[Track(covs).bestIteration.value] == Track(covs).best
  {
    if |covs| > 0 {
      var prev := covs[..|covs| - 1];
      TrackIsRunningMaximum(prev);
      var st := Track(prev);
      forall i | 0 <= i < |covs| - 1 ensures covs[i] <= Track(covs).best {
        assert covs[i] == prev[i];
      }
      if st.bestIteration.Some? {
        var b := st.bestIteration.value;
        assert covs[b] == prev[b];
        forall j | 0 <= j < b ensures covs[j] < covs[b] {
          assert covs[j] == prev[j];
        }
      }
    }
  }

  /** Records are exactly the iterations that beat every earlier coverage and 0. */
  lemma RecordIffImproves(covs: seq<int>, x: int)
    ensures IsRecord(covs + [x], |covs|) <==> x > Track(covs).best
  {
    TrackIsRunningMaximum(covs);
    var st := Track(covs);
    var c := covs + [x];
    if x > st.best {
      forall j | 0 <= j < |covs| ensures c[j] < x {
        assert c[j] == covs[j];
      }
    } else if st.bestIteration.Some? {
      assert c[st.bestIteration.value] == st.best;
    }
  }

  /** An iteration of a prefix is a record in the prefix exactly when it is one in the whole run. */
  lemma RecordOfPrefix(covs: seq<int>, x: int, i: int)
    requires 0 <= i < |covs|
    ensures IsRecord(covs + [x], i) <==> IsRecord(covs, i)
  {
    var c := covs + [x];
    assert c[i] == covs[i];
    assert forall j :: 0 <= j < i ==> c[j] == covs[j];
  }

  /** The log holds exactly the records, each with its coverage, in
      iteration order; its iterations and its coverages both strictly
      increase, and its last line is the final best. */
  predicate LogMatches(covs: seq<int>, st: Tracked) {
    && (forall a, b :: 0 <= a < b < |st.log| ==> st.log[a].0 < st.log[b].0 && st.log[a].1 < st.log[b].1)
    && (forall e :: 0 <= e < |st.log| ==> IsRecord(covs, st.log[e].0) && st.log[e].1 == covs[st.log[e].0])
    && (forall i :: 0 <= i < |covs| && IsRecord(covs, i) ==> (i, covs[i]) in st.log)
    && (|st.log| == 0 <==> st.bestIteration.None?)
    && (|st.log| > 0 ==> st.bestIteration.Some? && st.log[|st.log| - 1] == (st.bestIteration.value, st.best))
  }

  lemma {:induction false} TrackLogIsRecords(covs: seq<int>)
    ensures LogMatches(covs, Track(covs))
  {
    if |covs| > 0 {
      var prev, x := covs[..|covs| - 1], covs[|covs| - 1];
      assert covs == prev + [x];
      TrackLogIsRecords(prev);
      LogStep(prev, x);
    }
  }

  lemma LogStep(prev: seq<int>, x: int)
    requires LogMatches(prev, Track(prev))
    ensures LogMatches(prev + [x], Track(prev + [x]))
  {
    var covs := prev + [x];
    assert covs[..|covs| - 1] == prev;
    TrackIsRunningMaximum(prev);
    RecordIffImproves(prev, x);
    var st := Track(prev);
    forall i | 0 <= i < |prev| ensures IsRecord(covs, i) <==> IsRecord(prev, i) {
      RecordOfPrefix(prev, x, i);
    }
    forall e | 0 <= e < |st.log| ensures covs[st.log[e].0] == prev[st.log[e].0] {
    }
    if x > st.best {
      assert Track(covs) == Tracked(x, Some(|prev|), st.log + [(|prev|, x)]);
      LogStepImproves(prev, x, st);
    } else {
      assert Track(covs) == st;
    }
  }

  lemma LogStepImproves(prev: seq<int>, x: int, st: Tracked)
    requires LogMatches(prev, st) && st.best >= 0 && x > st.best
    requires st.bestIteration.Some? ==> st.best == prev[st.bestIteration.value] && st.bestIteration.value < |prev|
    requires forall i :: 0 <= i < |prev| ==> (IsRecord(prev + [x], i) <==> IsRecord(prev, i))
    requires IsRecord(prev + [x], |prev|)
    requires forall e :: 0 <= e < |st.log| ==> (prev + [x])[st.log[e].0] == prev[st.log[e].0]
    ensures LogMatches(prev + [x], Tracked(x, Some(|prev|), st.log + [(|prev|, x)]))
  {
    var log := st.log + [(|prev|, x)];
    forall a, b | 0 <= a < b < |log| ensures log[a].0 < log[b].0 && log[a].1 < log[b].1 {
      if b == |log| - 1 && a == |log| - 2 {
        assert log[a] == (st.bestIteration.value, st.best);
      }
    }
  }

  /** When no iteration covers anyone, nothing is ever stored and the log stays empty. */
  lemma NothingStoredWithoutCoverage(covs: seq<int>)
    requires forall i :: 0 <= i < |covs| ==> covs[i] <= 0
    ensures Track(covs).bestIteration == None && Track(covs).best == 0 && Track(covs).log == []
  {
    TrackIsRunningMaximum(covs);
    TrackLogIsRecords(covs);
  }

  /** One more iteration is one more comparison. */
  lemma TrackSnoc(covs: seq<int>, x: int)
    ensures Track(covs + [x]) == Step(Track(covs), |covs|, x)
  {
    assert (covs + [x])[..|covs|] == covs;
  }
}
