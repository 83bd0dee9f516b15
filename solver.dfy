/** The `solve_tsp` variants end to end: the Morton sort, the construction,
    the closing copy of the first city, the 2-opt refinement and the result
    dictionary. Timing fields are left out. A `Failure` carries the message
    of the exception the source raises. */
module Solver {
  import opened Wrappers
  import opened Tour
  import opened Memo
  import opened Morton
  import opened Matrix
  import opened Construct
  import opened TwoOpt
  import opened Interleaved

  /** The result dictionary without its timing fields. `Brief` is the result
      of TruePathTCPUP/server.py, test/nobruteforcing.py and
      test/TSPhashing.py; `Verbose` that of advanced/server.py (with
      `optimized_array`) and server.py (without). */
  datatype Report =
    | Brief(optimizedPath: seq<string>, optimizedDistance: real, optimizedArray: seq<City>)
    | Verbose(initialPath: seq<string>, optimizedPath: seq<string>,
              initialDistance: real, optimizedDistance: real, optionalArray: Option<seq<City>>)

  const IndexError := "list index out of range"

  /** `[city['name'] for city in path]`. */
  function PathNames(path: seq<City>): (r: seq<string>)
    ensures |r| == |path| && forall t :: 0 <= t < |path| ==> r[t] == path[t].name
  {
    if path == [] then [] else [path[0].name] + PathNames(path[1..])
  }

  /** `total_distance(path)` after the warm-up: the cycle length of `path`
      under the warmed memo. */
  method TotalDistance(memo: DistanceMemo, cities: seq<City>, ghost snapshot: map<MemoKey, real>,
                       path: seq<City>) returns (total: real)
    requires forall c :: c in path ==> c in cities
    requires Settled(memo.memo, snapshot, memo.hypot) && Covers(snapshot, cities)
    modifies memo
    ensures Settled(memo.memo, snapshot, memo.hypot)
    ensures total == CycleCost(path, Effective(snapshot, memo.hypot))
  {
    ghost var d := Effective(snapshot, memo.hypot);
    total := 0.0;
    for i := 0 to |path|
      invariant Settled(memo.memo, snapshot, memo.hypot)
      invariant total == WrapSum(path, d, i)
    {
      var dist := CalculateSettled(memo, cities, snapshot, path[i], path[(i + 1) % |path|]);
      total := total + dist;
    }
    CycleCostIsWrapSum(path, d);
  }

  // ---------------------------------------------------------------------------
  // Facts shared by the variants

  /** The Morton-sorted list has the cities, the names and the distinctness
      of the request. */
  lemma SortedFacts(cities: seq<City>)
    ensures multiset(MortonSorted(cities)) == multiset(cities)
    ensures forall c :: c in MortonSorted(cities) <==> c in cities
    ensures Names(MortonSorted(cities)) == Names(cities)
    ensures DistinctNames(MortonSorted(cities)) <==> DistinctNames(cities)
  {
    var sorted := MortonSorted(cities);
    SortPermutation(cities, MortonKey);
    NamesOfPermutation(sorted, cities);
    DistinctNamesCount(sorted);
    DistinctNamesCount(cities);
    assert forall c :: c in sorted <==> c in multiset(sorted);
    assert forall c :: c in cities <==> c in multiset(cities);
  }

  /** The warm-up covers the sorted list as well. */
  lemma CoversSorted(m: map<MemoKey, real>, cities: seq<City>)
    requires Covers(m, cities)
    ensures Covers(m, MortonSorted(cities))
  {
    SortedFacts(cities);
  }

  /** A constructed tour has one city per name of the request. */
  lemma TourLength(cities: seq<City>, d: Distance, tour: seq<City>)
    requires NearestTour(MortonSorted(cities), d, tour)
    ensures |tour| == |Names(cities)|
  {
    NearestTourNames(MortonSorted(cities), d, tour);
    SortedFacts(cities);
    DistinctNamesCount(tour);
  }

  /** With distinct names, the closed tour after 2-opt holds the request's
      cities once each and returns to the first city in Morton order. */
  lemma ClosedPermutation(cities: seq<City>, d: Distance, tour: seq<City>, final: seq<City>)
    requires NearestTour(MortonSorted(cities), d, tour) && DistinctNames(cities)
    requires Rearranged(tour + [tour[0]], final, |tour|)
    ensures |final| == |cities| + 1
    ensures final[0] == MortonSorted(cities)[0] && final[|cities|] == MortonSorted(cities)[0]
    ensures multiset(final[..|cities|]) == multiset(cities)
  {
    var sorted := MortonSorted(cities);
    var n := |cities|;
    SortedFacts(cities);
    NearestTourPermutation(sorted, d, tour);
    assert |tour| == n;
    var closed := tour + [tour[0]];
    assert final[n..] == closed[n..];
    assert closed[n..] == [tour[0]];
    assert final[n] == tour[0];
    assert final == final[..n] + [final[n]];
    MultisetCancel(final[..n], tour, tour[0]);
  }

  lemma MultisetCancel(a: seq<City>, b: seq<City>, c: City)
    requires multiset(a + [c]) == multiset(b + [c])
    ensures multiset(a) == multiset(b)
  {
    assert multiset(a + [c]) == multiset(a) + multiset{c};
    assert multiset(b + [c]) == multiset(b) + multiset{c};
    forall x ensures multiset(a)[x] == multiset(b)[x] {
      assert (multiset(a) + multiset{c})[x] == (multiset(b) + multiset{c})[x];
    }
  }

  // ---------------------------------------------------------------------------
  // The variants

  /** Closing a tour built by the interleaved construction. */
  lemma CloseInterleaved(cities: seq<City>, open: seq<City>)
    requires |open| > 0 && |cities| > 0 && open[0] == MortonSorted(cities)[0]
    requires forall c :: c in open ==> c in MortonSorted(cities)
    requires DistinctNames(open) && Names(open) == Names(MortonSorted(cities))
    requires DistinctNames(MortonSorted(cities)) ==>
      multiset(open) == multiset(MortonSorted(cities)) && |open| == |MortonSorted(cities)|
    ensures var final := open + [open[0]];
      && |final| >= 2 && final[0] == MortonSorted(cities)[0] && final[|final| - 1] == MortonSorted(cities)[0]
      && DistinctNames(final[..|final| - 1]) && Names(final) == Names(cities)
      && (forall c :: c in final ==> c in cities)
      && (DistinctNames(cities) ==> |final| == |cities| + 1 && multiset(final[..|cities|]) == multiset(cities))
  {
    var final := open + [open[0]];
    SortedFacts(cities);
    assert final[..|final| - 1] == open;
    NamesAppend(open, open[0]);
  }

  /** What `SolveByMatrix` promises, for a memo that held `m0` before the
      call and holds `m1` after it:
      - the memo grows only by raw distances of pairs of the request, and
        the matrix holds its entries in request order (from an empty memo
        with distinct names: `math.hypot` of the coordinate differences);
      - indexing fails exactly with an empty request or when the closed
        path is shorter than the request;
      - otherwise the report is the final path and its length under the
        matrix read through the Morton positions; the final path
        rearranges the closed nearest-neighbour tour, is no longer than it,
        and has no improving move left when 2-opt converged; with distinct
        names it holds the request's cities once each and starts and ends
        at the first city in Morton order. */
  ghost predicate MatrixOutcome(m0: map<MemoKey, real>, m1: map<MemoKey, real>, hypot: Hypot,
                                cities: seq<City>, r: Result<Report, string>, matrix: seq<seq<real>>,
                                tour: seq<City>, final: seq<City>, converged: bool)
  {
    && GrownBy(m0, m1, hypot, cities, true)
    && MatrixOf(matrix, cities, m1)
    && (m0 == map[] && DistinctNames(cities) ==>
          forall i, j :: 0 <= i < |cities| && 0 <= j < |cities| && i != j ==>
            matrix[i][j] == Raw(hypot, cities[i], cities[j]))
    && (r.Failure? <==> cities == [] || |Names(cities)| + 1 < |cities|)
    && (r.Failure? ==> r.error == IndexError)
    && (r.Success? ==>
      var sorted := MortonSorted(cities);
      var d := MatrixDistance(matrix, CityIndices(sorted));
      var n := |cities|;
      && NearestTour(sorted, d, tour)
      && Rearranged(tour + [tour[0]], final, n)
      && r.value == Brief(PathNames(final), TotalOver(final, d, n), final)
      && TotalOver(final, d, n) <= TotalOver(tour + [tour[0]], d, n)
      && (converged ==> CopyOptimal(final, d, n))
      && (DistinctNames(cities) ==>
            |final| == n + 1 && final[0] == sorted[0] && final[n] == sorted[0]
            && multiset(final[..n]) == multiset(cities)))
  }

  /** What `SolveInPlace` promises, for a memo that held `m0` before the
      call and holds `m1` after it, with `snapshot` the memo after the
      warm-up:
      - the warm-up grows the memo only by raw distances of pairs of the
        request, keeps what it held, and covers every pair of unequal
        cities;
      - indexing fails exactly with an empty request;
      - otherwise the later calls only add a city paired with itself; the
        report carries the final path and both lengths under the warmed
        memo; the final path rearranges the closed nearest-neighbour tour,
        is no longer than it, and has no improving move left when 2-opt
        converged; with distinct names it holds the request's cities once
        each, and from an empty memo both lengths are `math.hypot`
        lengths. */
  ghost predicate InPlaceOutcome(m0: map<MemoKey, real>, m1: map<MemoKey, real>, hypot: Hypot,
                                 cities: seq<City>, withArray: bool, r: Result<Report, string>,
                                 snapshot: map<MemoKey, real>, tour: seq<City>, final: seq<City>,
                                 converged: bool)
  {
    && GrownBy(m0, snapshot, hypot, cities, false) && Covers(snapshot, cities)
    && (r.Failure? <==> cities == [])
    && (r.Failure? ==> r.error == IndexError)
    && (r.Success? ==>
      var sorted := MortonSorted(cities);
      var d := Effective(snapshot, hypot);
      var n := |cities|;
      && Settled(m1, snapshot, hypot)
      && NearestTour(sorted, d, tour)
      && Rearranged(tour + [tour[0]], final, |tour|)
      && r.value == Verbose(PathNames(final), PathNames(final),
                            CycleCost(tour + [tour[0]], d), CycleCost(final, d),
                            if withArray then Some(final) else None)
      && CycleCost(final, d) <= CycleCost(tour + [tour[0]], d)
      && CycleCost(tour + [tour[0]], d) == CycleCost(tour, d) + d(tour[0], tour[0])
      && (converged ==> FourEdgeOptimal(final, d, |tour|))
      && (DistinctNames(cities) ==>
            |final| == n + 1 && final[0] == sorted[0] && final[n] == sorted[0]
            && multiset(final[..n]) == multiset(cities))
      && (m0 == map[] && DistinctNames(cities) ==>
            && CycleCost(tour + [tour[0]], d) == CycleCost(tour + [tour[0]], RawDistance(hypot))
            && CycleCost(final, d) == CycleCost(final, RawDistance(hypot))))
  }

  /** What `SolveInterleaved` promises, in the terms of `InPlaceOutcome`:
      the warm-up as there; indexing fails exactly with an empty request;
      otherwise the report carries the closed final path and its length
      under the warmed memo; the path starts and ends at the first city in
      Morton order and takes each name of the request once and only cities
      of the request; with distinct names it holds the request's cities
      once each, and from an empty memo its length is a `math.hypot`
      length. */
  ghost predicate InterleavedOutcome(m0: map<MemoKey, real>, m1: map<MemoKey, real>, hypot: Hypot,
                                     cities: seq<City>, r: Result<Report, string>,
                                     snapshot: map<MemoKey, real>, final: seq<City>)
  {
    && GrownBy(m0, snapshot, hypot, cities, false) && Covers(snapshot, cities)
    && (r.Failure? <==> cities == [])
    && (r.Failure? ==> r.error == IndexError)
    && (r.Success? ==>
      var sorted := MortonSorted(cities);
      var n := |cities|;
      && Settled(m1, snapshot, hypot)
      && r.value == Brief(PathNames(final), CycleCost(final, Effective(snapshot, hypot)), final)
      && |final| >= 2 && final[0] == sorted[0] && final[|final| - 1] == sorted[0]
      && DistinctNames(final[..|final| - 1]) && Names(final) == Names(cities)
      && (forall c :: c in final ==> c in cities)
      && (DistinctNames(cities) ==> |final| == n + 1 && multiset(final[..n]) == multiset(cities))
      && (m0 == map[] && DistinctNames(cities) ==>
            CycleCost(final, Effective(snapshot, hypot)) == CycleCost(final, RawDistance(hypot))))
  }

  /** TruePathTCPUP/server.py and test/nobruteforcing.py: the matrix filled
      through the memo in request order, the strict-`<` construction read
      through the Morton positions, and copy-and-recompute 2-opt over the
      first `num_cities` entries, for at most `fuel` passes.

      Indexing fails with an empty request (`cities_sorted[0]`) and when
      the closed path is shorter than `num_cities`, which repeated names
      cause once two names are repeated. */
  method SolveByMatrix(memo: DistanceMemo, cities: seq<City>, fuel: nat)
    returns (r: Result<Report, string>, ghost matrix: seq<seq<real>>, ghost tour: seq<City>,
             ghost final: seq<City>, ghost converged: bool)
    modifies memo
    ensures MatrixOutcome(old(memo.memo), memo.memo, memo.hypot, cities, r, matrix, tour, final, converged)
  {
    var n := |cities|;
    var m := FillMatrix(memo, cities);
    matrix := m;
    if old(memo.memo) == map[] && DistinctNames(cities) {
      FreshMatrixIsRaw(matrix, cities, memo.memo, memo.hypot);
    }
    var sorted := MortonSorted(cities);
    var ci := CityIndices(sorted);
    if n == 0 {
      return Failure(IndexError), matrix, [], [], false;
    }
    var path := BuildByMatrix(sorted, m, ci);
    tour := path;
    TourLength(cities, MatrixDistance(m, ci), tour);
    NamesBound(cities);
    path := path + [path[0]];
    if |path| < n {
      return Failure(IndexError), matrix, tour, [], false;
    }
    var best;
    path, best, converged := CopyTwoOpt(MatrixDistance(m, ci), n, path, fuel);
    final := path;
    if DistinctNames(cities) {
      DistinctNamesCount(cities);
      ClosedPermutation(cities, MatrixDistance(m, ci), tour, final);
    }
    r := Success(Brief(PathNames(path), best, path));
  }

  /** advanced/server.py (`withArray`) and server.py: the warm-up, the
      construction by `min`, the closing copy, `initial_distance`, in-place
      2-opt over `range(1, len(path) - 2)` and `range(i + 1, len(path) - 1)`
      for at most `fuel` passes, and `optimized_distance`. Both path fields
      are read from the final path. */
  method SolveInPlace(memo: DistanceMemo, cities: seq<City>, withArray: bool, fuel: nat)
    returns (r: Result<Report, string>, ghost snapshot: map<MemoKey, real>, ghost tour: seq<City>,
             ghost final: seq<City>, ghost converged: bool)
    modifies memo
    ensures InPlaceOutcome(old(memo.memo), memo.memo, memo.hypot, cities, withArray, r,
                           snapshot, tour, final, converged)
  {
    WarmUp(memo, cities);
    snapshot := memo.memo;
    var sorted := MortonSorted(cities);
    if |sorted| == 0 {
      return Failure(IndexError), snapshot, [], [], false;
    }
    ghost var d := Effective(snapshot, memo.hypot);
    CoversSorted(snapshot, cities);
    SortedFacts(cities);
    var path := BuildByMin(memo, sorted, snapshot);
    tour := path;
    NearestTourNames(sorted, d, tour);
    ClosedTotal(tour, d);
    path := path + [path[0]];
    var initialDistance := TotalDistance(memo, sorted, snapshot, path);
    path, converged := InPlaceTwoOpt(memo, sorted, snapshot, path, |path| - 1, fuel);
    final := path;
    RearrangedMembers(tour + [tour[0]], final, |tour|);
    var optimizedDistance := TotalDistance(memo, sorted, snapshot, path);
    if DistinctNames(cities) {
      ClosedPermutation(cities, d, tour, final);
      if old(memo.memo) == map[] {
        FreshCycleCost(snapshot, memo.hypot, cities, tour + [tour[0]]);
        FreshCycleCost(snapshot, memo.hypot, cities, final);
      }
    }
    var names := PathNames(path);
    r := Success(Verbose(names, names, initialDistance, optimizedDistance,
                         if withArray then Some(path) else None));
  }

  /** test/TSPhashing.py: the warm-up, the construction with a 2-opt pass
      after every appended city, the closing copy and `total_distance`. */
  method SolveInterleaved(memo: DistanceMemo, cities: seq<City>)
    returns (r: Result<Report, string>, ghost snapshot: map<MemoKey, real>, ghost final: seq<City>)
    modifies memo
    ensures InterleavedOutcome(old(memo.memo), memo.memo, memo.hypot, cities, r, snapshot, final)
  {
    WarmUp(memo, cities);
    snapshot := memo.memo;
    var sorted := MortonSorted(cities);
    if |sorted| == 0 {
      return Failure(IndexError), snapshot, [];
    }
    CoversSorted(snapshot, cities);
    SortedFacts(cities);
    var path := BuildInterleaved(memo, sorted, snapshot);
    ghost var open := path;
    path := path + [path[0]];
    final := path;
    CloseInterleaved(cities, open);
    var total := TotalDistance(memo, sorted, snapshot, path);
    if old(memo.memo) == map[] && DistinctNames(cities) {
      FreshCycleCost(snapshot, memo.hypot, cities, final);
    }
    r := Success(Brief(PathNames(path), total, path));
  }
}
