/** 2-opt refinement. A move reverses the stretch of the path from `i` to
    `j`; the start of the path never moves. Two forms appear:

    - copy-and-recompute (TruePathTCPUP/server.py, test/nobruteforcing.py):
      `two_opt_swap` builds a new list and `calculate_total_distance`
      re-sums the first `num_cities` entries read as a cycle;
    - in place (advanced/server.py, server.py, and the sweeps interleaved
      with construction in test/TSPhashing.py): a four-edge test through the
      memo decides, and `path[i:j + 1] = reversed(path[i:j + 1])` applies it.

    Neither restarts a sweep after a move: the sweep goes on over the
    changed path. */
module TwoOpt {
  import opened Tour
  import opened Memo

  // ---------------------------------------------------------------------------
  // Lengths and moves

  /** `calculate_total_distance`: the first `n` cities read as a cycle, the
      successor of position `i` being `(i + 1) % n`. */
  function TotalOver(p: seq<City>, d: Distance, n: nat): real
    requires n <= |p|
  {
    WrapSum(p[..n], d, n)
  }

  lemma TotalIsCycle(p: seq<City>, d: Distance, n: nat)
    requires n <= |p|
    ensures TotalOver(p, d, n) == CycleCost(p[..n], d)
  {
    CycleCostIsWrapSum(p[..n], d);
  }

  /** What the four-edge test of the in-place form compares: the two edges a
      move removes minus the two it adds. */
  function Gain(p: seq<City>, i: nat, j: nat, d: Distance): real
    requires 1 <= i < j < |p|
  {
    var next := p[(j + 1) % |p|];
    (d(p[i - 1], p[i]) + d(p[j], next)) - (d(p[i - 1], p[j]) + d(p[i], next))
  }

  /** Under a symmetric distance a move shortens the cycle by exactly its
      gain, so the four-edge test accepts exactly the moves that shorten it. */
  lemma GainIsShortening(p: seq<City>, i: nat, j: nat, d: Distance)
    requires Symmetric(d) && 1 <= i < j < |p|
    ensures CycleCost(Swap(p, i, j), d) == CycleCost(p, d) - Gain(p, i, j, d)
    ensures Gain(p, i, j, d) > 0.0 <==> CycleCost(Swap(p, i, j), d) < CycleCost(p, d)
  {
    TwoOptDelta(p, i, j, d);
  }

  /** The copy-and-recompute test agrees with the four-edge test taken on
      the first `n` cities: both forms accept the same moves. */
  lemma CopyMatchesFourEdge(p: seq<City>, i: nat, k: nat, d: Distance, n: nat)
    requires Symmetric(d) && 1 <= i < k < n <= |p|
    ensures TotalOver(Swap(p, i, k), d, n) == TotalOver(p, d, n) - Gain(p[..n], i, k, d)
  {
    assert Swap(p, i, k)[..n] == Swap(p[..n], i, k);
    TotalIsCycle(p, d, n);
    TotalIsCycle(Swap(p, i, k), d, n);
    GainIsShortening(p[..n], i, k, d);
  }

  /** `p` is `p0` after moves within positions `1 .. span - 1`: the same
      cities, the same first city, nothing from `span` on touched. */
  predicate Rearranged(p0: seq<City>, p: seq<City>, span: nat) {
    && |p| == |p0| && span <= |p|
    && multiset(p) == multiset(p0)
    && (|p| > 0 ==> p[0] == p0[0])
    && p[span..] == p0[span..]
  }

  lemma SwapRearranged(p0: seq<City>, p: seq<City>, i: nat, k: nat, span: nat)
    requires Rearranged(p0, p, span) && 1 <= i < k < span
    ensures Rearranged(p0, Swap(p, i, k), span)
  {
    SwapMultiset(p, i, k);
    assert Swap(p, i, k)[span..] == p[span..];
  }

  lemma RearrangedMembers(p0: seq<City>, p: seq<City>, span: nat)
    requires Rearranged(p0, p, span)
    ensures forall c :: c in p <==> c in p0
  {
    assert forall c :: c in p <==> c in multiset(p);
    assert forall c :: c in p0 <==> c in multiset(p0);
  }

  // ---------------------------------------------------------------------------
  // Copy and recompute

  /** No move with `1 <= i < k < n` lowers `calculate_total_distance`. */
  ghost predicate CopyOptimal(p: seq<City>, d: Distance, n: nat) {
    n <= |p| && forall i, k :: 1 <= i < k < n ==> TotalOver(Swap(p, i, k), d, n) >= TotalOver(p, d, n)
  }

  /** Every move `(i, k')` with `i < k' < k` leaves the total at least `best0`. */
  ghost predicate RowChecked(p: seq<City>, d: Distance, n: nat, i: nat, k: nat, best0: real)
    requires 1 <= i && n <= |p|
  {
    forall k' :: i < k' < k && k' < n ==> TotalOver(Swap(p, i, k'), d, n) >= best0
  }

  lemma RowCheckedStep(p: seq<City>, d: Distance, n: nat, i: nat, k: nat, best0: real)
    requires 1 <= i < k < n <= |p| && RowChecked(p, d, n, i, k, best0)
    requires TotalOver(Swap(p, i, k), d, n) >= best0
    ensures RowChecked(p, d, n, i, k + 1, best0)
  {
    forall k' | i < k' < k + 1 && k' < n ensures TotalOver(Swap(p, i, k'), d, n) >= best0 {
      if k' < k {
        assert RowChecked(p, d, n, i, k, best0);
      }
    }
  }

  /** The inner `for k in range(i + 1, num_cities)` loop. */
  method CopyRow(d: Distance, n: nat, i: nat, path0: seq<City>, best0: real)
    returns (path: seq<City>, best: real, improved: bool)
    requires 1 <= i < n <= |path0| && best0 == TotalOver(path0, d, n)
    ensures Rearranged(path0, path, n) && best == TotalOver(path, d, n)
    ensures improved ==> best < best0
    ensures !improved ==> path == path0 && best == best0
    ensures !improved ==> RowChecked(path0, d, n, i, n, best0)
  {
    path, best, improved := path0, best0, false;
    for k := i + 1 to n
      invariant Rearranged(path0, path, n) && best == TotalOver(path, d, n)
      invariant improved ==> best < best0
      invariant !improved ==> path == path0 && best == best0 && RowChecked(path0, d, n, i, k, best0)
    {
      var newPath := Swap(path, i, k);
      var newDistance := TotalOver(newPath, d, n);
      if newDistance < best {
        SwapRearranged(path0, path, i, k, n);
        path, best, improved := newPath, newDistance, true;
      } else if !improved {
        RowCheckedStep(path0, d, n, i, k, best0);
      }
    }
  }

  /** One pass of `for i in range(1, num_cities - 1)`. A pass that accepts
      no move has shown the path locally optimal. */
  method CopySweep(d: Distance, n: nat, path0: seq<City>, best0: real)
    returns (path: seq<City>, best: real, improved: bool)
    requires n <= |path0| && best0 == TotalOver(path0, d, n)
    ensures Rearranged(path0, path, n) && best == TotalOver(path, d, n)
    ensures improved ==> best < best0
    ensures !improved ==> path == path0 && CopyOptimal(path, d, n)
  {
    path, best, improved := path0, best0, false;
    var i := 1;
    while i < n - 1
      invariant 1 <= i
      invariant Rearranged(path0, path, n) && best == TotalOver(path, d, n)
      invariant improved ==> best < best0
      invariant !improved ==> path == path0 && best == best0
      invariant !improved ==> forall i' :: 1 <= i' < i ==> RowChecked(path0, d, n, i', n, best0)
    {
      var rowPath, rowBest, rowImproved := CopyRow(d, n, i, path, best);
      path, best, improved := rowPath, rowBest, improved || rowImproved;
      i := i + 1;
    }
    if !improved {
      forall i', k | 1 <= i' < k < n ensures TotalOver(Swap(path, i', k), d, n) >= TotalOver(path, d, n) {
        assert RowChecked(path0, d, n, i', n, best0);
      }
    }
  }

  /** `while improved:` over whole passes, for at most `fuel` passes.
      `converged` reports that the last pass accepted no move. */
  method CopyTwoOpt(d: Distance, n: nat, path0: seq<City>, fuel: nat)
    returns (path: seq<City>, best: real, converged: bool)
    requires n <= |path0|
    ensures Rearranged(path0, path, n)
    ensures best == TotalOver(path, d, n) && best <= TotalOver(path0, d, n)
    ensures converged ==> CopyOptimal(path, d, n)
  {
    path, best := path0, TotalOver(path0, d, n);
    var improved := true;
    var passes := 0;
    while improved && passes < fuel
      invariant Rearranged(path0, path, n)
      invariant best == TotalOver(path, d, n) && best <= TotalOver(path0, d, n)
      invariant !improved ==> CopyOptimal(path, d, n)
      decreases fuel - passes
    {
      path, best, improved := CopySweep(d, n, path, best);
      passes := passes + 1;
    }
    converged := !improved;
  }

  // ---------------------------------------------------------------------------
  // In place, through the memo

  /** No move with `1 <= i < j < span` passes the four-edge test. */
  ghost predicate FourEdgeOptimal(p: seq<City>, d: Distance, span: nat) {
    span <= |p| && forall i, j :: 1 <= i < j < span ==> Gain(p, i, j, d) <= 0.0
  }

  /** A path no move passes the test on is 2-opt optimal for those moves:
      none of them would shorten it. */
  lemma FourEdgeOptimalIsLocal(p: seq<City>, d: Distance, span: nat)
    requires Symmetric(d) && FourEdgeOptimal(p, d, span)
    ensures forall i, j :: 1 <= i < j < span ==> CycleCost(Swap(p, i, j), d) >= CycleCost(p, d)
  {
    forall i, j | 1 <= i < j < span ensures CycleCost(Swap(p, i, j), d) >= CycleCost(p, d) {
      GainIsShortening(p, i, j, d);
    }
  }

  /** The `if` of the in-place sweep: four `calculate_distance` calls after
      the warm-up, compared as the source compares them. */
  method FourEdgeTest(memo: DistanceMemo, cities: seq<City>, ghost snapshot: map<MemoKey, real>,
                      p: seq<City>, i: nat, j: nat) returns (better: bool)
    requires 1 <= i < j < |p| && forall c :: c in p ==> c in cities
    requires Settled(memo.memo, snapshot, memo.hypot) && Covers(snapshot, cities)
    modifies memo
    ensures Settled(memo.memo, snapshot, memo.hypot)
    ensures better <==> Gain(p, i, j, Effective(snapshot, memo.hypot)) > 0.0
  {
    var next := p[(j + 1) % |p|];
    var removed1 := CalculateSettled(memo, cities, snapshot, p[i - 1], p[i]);
    var removed2 := CalculateSettled(memo, cities, snapshot, p[j], next);
    var added1 := CalculateSettled(memo, cities, snapshot, p[i - 1], p[j]);
    var added2 := CalculateSettled(memo, cities, snapshot, p[i], next);
    better := removed1 + removed2 > added1 + added2;
  }

  /** Every move `(i, j')` with `i < j' < j` fails the four-edge test. */
  ghost predicate RowRejected(p: seq<City>, d: Distance, i: nat, j: nat)
    requires 1 <= i
  {
    forall j' :: i < j' < j && j' < |p| ==> Gain(p, i, j', d) <= 0.0
  }

  lemma RowRejectedStep(p: seq<City>, d: Distance, i: nat, j: nat)
    requires 1 <= i < j < |p| && RowRejected(p, d, i, j) && Gain(p, i, j, d) <= 0.0
    ensures RowRejected(p, d, i, j + 1)
  {
    forall j' | i < j' < j + 1 && j' < |p| ensures Gain(p, i, j', d) <= 0.0 {
      if j' < j {
        assert RowRejected(p, d, i, j);
      }
    }
  }

  /** An accepted move keeps the rearrangement and shortens the cycle. */
  lemma AcceptMove(p0: seq<City>, p: seq<City>, i: nat, j: nat, span: nat, d: Distance)
    requires Symmetric(d) && Rearranged(p0, p, span) && 1 <= i < j < span
    requires Gain(p, i, j, d) > 0.0
    ensures Rearranged(p0, Swap(p, i, j), span)
    ensures CycleCost(Swap(p, i, j), d) < CycleCost(p, d)
  {
    GainIsShortening(p, i, j, d);
    SwapRearranged(p0, p, i, j, span);
  }

  /** The inner `for j in range(i + 1, span)` loop: every move the test
      accepts is applied at once and shortens the path read as a cycle. */
  method InPlaceRow(memo: DistanceMemo, cities: seq<City>, ghost snapshot: map<MemoKey, real>,
                    path0: seq<City>, i: nat, span: nat) returns (path: seq<City>, improved: bool)
    requires 1 <= i < span <= |path0| && forall c :: c in path0 ==> c in cities
    requires Settled(memo.memo, snapshot, memo.hypot) && Covers(snapshot, cities)
    modifies memo
    ensures Settled(memo.memo, snapshot, memo.hypot)
    ensures Rearranged(path0, path, span)
    ensures improved ==> CycleCost(path, Effective(snapshot, memo.hypot)) < CycleCost(path0, Effective(snapshot, memo.hypot))
    ensures !improved ==> path == path0
    ensures !improved ==> RowRejected(path0, Effective(snapshot, memo.hypot), i, span)
  {
    ghost var d := Effective(snapshot, memo.hypot);
    EffectiveSymmetric(snapshot, memo.hypot);
    path, improved := path0, false;
    for j := i + 1 to span
      invariant Settled(memo.memo, snapshot, memo.hypot)
      invariant Rearranged(path0, path, span)
      invariant improved ==> CycleCost(path, d) < CycleCost(path0, d)
      invariant !improved ==> path == path0 && RowRejected(path0, d, i, j)
    {
      RearrangedMembers(path0, path, span);
      var better := FourEdgeTest(memo, cities, snapshot, path, i, j);
      if better {
        AcceptMove(path0, path, i, j, span, d);
        path, improved := Swap(path, i, j), true;
      } else if !improved {
        RowRejectedStep(path0, d, i, j);
      }
    }
  }

  /** One pass of `for i in range(1, span - 1)`, `for j in range(i + 1, span)`:
      `span` is `len(path) - 1` in advanced/server.py and server.py, and
      `len(path)` in the sweeps of test/TSPhashing.py. */
  method InPlaceSweep(memo: DistanceMemo, cities: seq<City>, ghost snapshot: map<MemoKey, real>,
                      path0: seq<City>, span: nat) returns (path: seq<City>, improved: bool)
    requires span <= |path0| && forall c :: c in path0 ==> c in cities
    requires Settled(memo.memo, snapshot, memo.hypot) && Covers(snapshot, cities)
    modifies memo
    ensures Settled(memo.memo, snapshot, memo.hypot)
    ensures Rearranged(path0, path, span)
    ensures improved ==> CycleCost(path, Effective(snapshot, memo.hypot)) < CycleCost(path0, Effective(snapshot, memo.hypot))
    ensures !improved ==> path == path0 && FourEdgeOptimal(path, Effective(snapshot, memo.hypot), span)
  {
    ghost var d := Effective(snapshot, memo.hypot);
    path, improved := path0, false;
    var i := 1;
    while i < span - 1
      invariant 1 <= i
      invariant Settled(memo.memo, snapshot, memo.hypot)
      invariant Rearranged(path0, path, span)
      invariant improved ==> CycleCost(path, d) < CycleCost(path0, d)
      invariant !improved ==> path == path0
      invariant !improved ==> forall i' :: 1 <= i' < i ==> RowRejected(path0, d, i', span)
    {
      RearrangedMembers(path0, path, span);
      var rowPath, rowImproved := InPlaceRow(memo, cities, snapshot, path, i, span);
      path, improved := rowPath, improved || rowImproved;
      i := i + 1;
    }
    if !improved {
      forall i', j | 1 <= i' < j < span ensures Gain(path, i', j, d) <= 0.0 {
        assert RowRejected(path0, d, i', span);
      }
    }
  }

  /** `while improved:` over in-place passes, for at most `fuel` passes. */
  method InPlaceTwoOpt(memo: DistanceMemo, cities: seq<City>, ghost snapshot: map<MemoKey, real>,
                       path0: seq<City>, span: nat, fuel: nat) returns (path: seq<City>, converged: bool)
    requires span <= |path0| && forall c :: c in path0 ==> c in cities
    requires Settled(memo.memo, snapshot, memo.hypot) && Covers(snapshot, cities)
    modifies memo
    ensures Settled(memo.memo, snapshot, memo.hypot)
    ensures Rearranged(path0, path, span)
    ensures CycleCost(path, Effective(snapshot, memo.hypot)) <= CycleCost(path0, Effective(snapshot, memo.hypot))
    ensures converged ==> FourEdgeOptimal(path, Effective(snapshot, memo.hypot), span)
  {
    ghost var d := Effective(snapshot, memo.hypot);
    path := path0;
    var improved := true;
    var passes := 0;
    while improved && passes < fuel
      invariant Settled(memo.memo, snapshot, memo.hypot)
      invariant Rearranged(path0, path, span)
      invariant CycleCost(path, d) <= CycleCost(path0, d)
      invariant !improved ==> FourEdgeOptimal(path, d, span)
      decreases fuel - passes
    {
      RearrangedMembers(path0, path, span);
      path, improved := InPlaceSweep(memo, cities, snapshot, path, span);
      passes := passes + 1;
    }
    converged := !improved;
  }
}
