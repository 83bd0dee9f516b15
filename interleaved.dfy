/** The `solve_tsp` of test/TSPhashing.py: nearest-neighbour construction by
    `min(..., key=...)` with an in-place 2-opt pass over the partial path
    after every city appended. The passes may move the city just appended,
    but the next round still starts from it. */
module Interleaved {
  import opened Wrappers
  import opened Tour
  import opened Memo
  import opened Construct
  import opened TwoOpt

  lemma SnocDistinct(p: seq<City>, c: City)
    requires DistinctNames(p) && c.name !in Names(p)
    ensures DistinctNames(p + [c])
  {
    forall i, j | 0 <= i < j < |p + [c]| ensures (p + [c])[i].name != (p + [c])[j].name {
      if j == |p| {
        assert p[i] in p;
      }
    }
  }

  /** A pass keeps the names of the path and their distinctness. */
  lemma RearrangedNames(p0: seq<City>, p: seq<City>, span: nat)
    requires Rearranged(p0, p, span) && DistinctNames(p0)
    ensures Names(p) == Names(p0) && DistinctNames(p)
    ensures forall c :: c in p <==> c in p0
  {
    NamesOfPermutation(p, p0);
    DistinctNamesCount(p0);
    DistinctNamesCount(p);
    RearrangedMembers(p0, p, span);
  }

  /** When the round finds no candidate, every name has been visited. */
  lemma AllVisited(cs: seq<City>, d: Distance, path: seq<City>, current: City)
    requires forall c :: c in path ==> c in cs
    requires Nearest(cs, Names(path), d, current) == None
    ensures Names(path) == Names(cs)
  {
    NearestChoice(cs, Names(path), d, current);
    forall n | n in Names(cs) ensures n in Names(path) {
      var c :| c in cs && c.name == n;
    }
    forall n | n in Names(path) ensures n in Names(cs) {
      var c :| c in path && c.name == n;
    }
  }

  /** The construction loop with its passes. The path starts at the first
      city in Morton order and ends up holding every name of the request
      once; each pass keeps its start and its cities and, when it moves
      anything, shortens it read as a cycle. */
  method BuildInterleaved(memo: DistanceMemo, cs: seq<City>, ghost snapshot: map<MemoKey, real>)
    returns (path: seq<City>)
    requires |cs| > 0
    requires Settled(memo.memo, snapshot, memo.hypot) && Covers(snapshot, cs)
    modifies memo
    ensures Settled(memo.memo, snapshot, memo.hypot)
    ensures |path| > 0 && path[0] == cs[0]
    ensures forall c :: c in path ==> c in cs
    ensures DistinctNames(path) && Names(path) == Names(cs)
    ensures DistinctNames(cs) ==> multiset(path) == multiset(cs) && |path| == |cs|
  {
    ghost var d := Effective(snapshot, memo.hypot);
    var unvisited := Names(cs);
    path := [cs[0]];
    var current := cs[0];
    NamesAppend([], cs[0]);
    while unvisited != {}
      invariant Settled(memo.memo, snapshot, memo.hypot)
      invariant |path| > 0 && path[0] == cs[0] && current in path
      invariant forall c :: c in path ==> c in cs
      invariant DistinctNames(path)
      invariant unvisited == (Names(cs) - Names(path)) + {current.name}
      decreases |unvisited|
    {
      Remaining(cs, path, unvisited, current);
      unvisited := unvisited - {current.name};
      var m := memo.memo;
      var closest := MinByDistance(Candidates(cs, unvisited), Effective(m, memo.hypot), current);
      SettledAgree(m, snapshot, memo.hypot, cs, current);
      MinIsNearest(cs, unvisited, Names(path), Effective(m, memo.hypot), d, current);
      if closest.None? {
        AllVisited(cs, d, path, current);
        if DistinctNames(cs) {
          CoverPermutation(path, cs);
        }
        return;
      }
      var next := closest.value;
      NearestChoice(cs, Names(path), d, current);
      Advance(cs, path, unvisited, next);
      SnocDistinct(path, next);
      path := path + [next];
      current := next;
      ghost var before := path;
      var moved;
      path, moved := InPlaceSweep(memo, cs, snapshot, path, |path|);
      RearrangedNames(before, path, |before|);
    }
  }
}
