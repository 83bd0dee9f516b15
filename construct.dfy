/** Nearest-neighbour tour construction. Starting from the first city in
    Morton order, each round appends the unvisited city (by name) nearest to
    the current one; ties go to the city met first in Morton order. The
    strict-`<` scan against `float('inf')` (TruePathTCPUP/server.py,
    test/nobruteforcing.py) and `min(..., key=...)` (advanced/server.py,
    server.py, test/TSPhashing.py) both pick that first minimum. */
module Construct {
  import opened Wrappers
  import opened Tour
  import opened Memo
  import opened Matrix

  lemma {:induction false} SubsetCard<T>(a: set<T>, b: set<T>)
    requires a <= b
    decreases |a|
    ensures |a| <= |b|
  {
    if a != {} {
      var x :| x in a;
      SubsetCard(a - {x}, b - {x});
    }
  }

  lemma SubsetFull<T>(a: set<T>, b: set<T>)
    requires a <= b && |b| <= |a|
    ensures a == b
  {
    if a != b {
      var x :| x in b && x !in a;
      SubsetCard(a, b - {x});
    }
  }

  // ---------------------------------------------------------------------------
  // One round

  /** The cities of `cs`, in order, whose name has not been visited. */
  function Unvisited(cs: seq<City>, visited: set<string>): seq<City> {
    if cs == [] then []
    else
      var last := cs[|cs| - 1];
      Unvisited(cs[..|cs| - 1], visited) + (if last.name in visited then [] else [last])
  }

  lemma {:induction false} UnvisitedMembers(cs: seq<City>, visited: set<string>)
    ensures forall c :: c in Unvisited(cs, visited) <==> c in cs && c.name !in visited
  {
    if cs != [] {
      var front := cs[..|cs| - 1];
      assert cs == front + [cs[|cs| - 1]];
      UnvisitedMembers(front, visited);
    }
  }

  /** The position of the first city of `s` nearest to `from`. */
  function FirstMinIndex(s: seq<City>, d: Distance, from: City): (i: nat)
    requires |s| > 0
    ensures i < |s|
    ensures forall j :: 0 <= j < |s| ==> d(from, s[i]) <= d(from, s[j])
    ensures forall j :: 0 <= j < i ==> d(from, s[j]) > d(from, s[i])
  {
    if |s| == 1 then 0
    else
      var k := FirstMinIndex(s[..|s| - 1], d, from);
      if d(from, s[|s| - 1]) < d(from, s[k]) then |s| - 1 else k
  }

  /** The city a round appends after `from`, or `None` when every name has
      been visited. */
  function Nearest(cs: seq<City>, visited: set<string>, d: Distance, from: City): Option<City> {
    var u := Unvisited(cs, visited);
    if u == [] then None else Some(u[FirstMinIndex(u, d, from)])
  }

  /** A round stops only when every name is visited; otherwise it picks an
      unvisited city no farther from `from` than any other unvisited city. */
  lemma NearestChoice(cs: seq<City>, visited: set<string>, d: Distance, from: City)
    ensures Nearest(cs, visited, d, from).None? <==> forall c :: c in cs ==> c.name in visited
    ensures Nearest(cs, visited, d, from).Some? ==>
      var r := Nearest(cs, visited, d, from).value;
      && r in cs && r.name !in visited
      && forall c :: c in cs && c.name !in visited ==> d(from, r) <= d(from, c)
  {
    var u := Unvisited(cs, visited);
    UnvisitedMembers(cs, visited);
    if u != [] {
      var i := FirstMinIndex(u, d, from);
      assert u[i] in u;
      forall c | c in cs && c.name !in visited ensures d(from, u[i]) <= d(from, c) {
        assert c in u;
        var j :| 0 <= j < |u| && u[j] == c;
      }
    } else {
      forall c | c in cs ensures c.name in visited {
        assert c !in u;
      }
    }
  }

  /** Scanning one more city: it replaces the best so far only when it is
      unvisited and strictly nearer. */
  lemma NearestSnoc(cs: seq<City>, c: City, visited: set<string>, d: Distance, from: City)
    ensures Nearest(cs + [c], visited, d, from) ==
      if c.name in visited then Nearest(cs, visited, d, from)
      else match Nearest(cs, visited, d, from)
        case None => Some(c)
        case Some(b) => if d(from, c) < d(from, b) then Some(c) else Some(b)
  {
    assert (cs + [c])[..|cs|] == cs;
    var u := Unvisited(cs, visited);
    if c.name !in visited && u != [] {
      assert (u + [c])[..|u|] == u;
    }
  }

  /** The same round computed under two distance functions that agree on
      every candidate. */
  lemma {:induction false} FirstMinAgree(s: seq<City>, d: Distance, e: Distance, from: City)
    requires |s| > 0
    requires forall c :: c in s ==> d(from, c) == e(from, c)
    ensures FirstMinIndex(s, d, from) == FirstMinIndex(s, e, from)
  {
    if |s| > 1 {
      FirstMinAgree(s[..|s| - 1], d, e, from);
      var k := FirstMinIndex(s[..|s| - 1], d, from);
      assert s[..|s| - 1][k] in s;
    }
  }

  // ---------------------------------------------------------------------------
  // A whole construction

  /** `path` is a construction in progress: it starts at the first city in
      Morton order, holds cities of the request only, and each later city is
      the round's choice after its predecessor. */
  ghost predicate Partial(cs: seq<City>, d: Distance, path: seq<City>) {
    && |cs| > 0 && |path| > 0 && path[0] == cs[0]
    && (forall c :: c in path ==> c in cs)
    && (forall t :: 1 <= t < |path| ==> Nearest(cs, Names(path[..t]), d, path[t - 1]) == Some(path[t]))
  }

  /** `path` is what the construction builds: a construction in progress
      after which no unvisited name is left. */
  ghost predicate NearestTour(cs: seq<City>, d: Distance, path: seq<City>) {
    Partial(cs, d, path) && Nearest(cs, Names(path), d, path[|path| - 1]) == None
  }

  /** A constructed tour takes each name once and visits every name. */
  lemma NearestTourNames(cs: seq<City>, d: Distance, path: seq<City>)
    requires NearestTour(cs, d, path)
    ensures DistinctNames(path)
    ensures forall c :: c in path ==> c in cs
    ensures Names(path) == Names(cs)
  {
    forall j | 1 <= j < |path| ensures path[j].name !in Names(path[..j]) && path[j] in cs {
      NearestChoice(cs, Names(path[..j]), d, path[j - 1]);
    }
    forall i, j | 0 <= i < j < |path| ensures path[i].name != path[j].name {
      assert path[..j][i] == path[i];
    }
    forall c | c in path ensures c in cs {
      var t :| 0 <= t < |path| && path[t] == c;
    }
    NearestChoice(cs, Names(path), d, path[|path| - 1]);
  }

  /** A name-distinct list of cities of a name-distinct request that has
      visited every name is a permutation of the request. */
  lemma CoverPermutation(path: seq<City>, cs: seq<City>)
    requires DistinctNames(path) && DistinctNames(cs)
    requires (forall c :: c in path ==> c in cs) && Names(path) == Names(cs)
    ensures multiset(path) == multiset(cs) && |path| == |cs|
  {
    forall x | x in cs ensures x in path {
      assert x.name in Names(path);
      var y :| y in path && y.name == x.name;
      var i :| 0 <= i < |cs| && cs[i] == x;
      var j :| 0 <= j < |cs| && cs[j] == y;
      assert i == j;
    }
    DistinctPermutation(path, cs);
    assert |path| == |multiset(path)|;
  }

  /** With distinct names in the request, the constructed tour is a
      permutation of the cities. */
  lemma NearestTourPermutation(cs: seq<City>, d: Distance, path: seq<City>)
    requires NearestTour(cs, d, path) && DistinctNames(cs)
    ensures multiset(path) == multiset(cs) && |path| == |cs|
  {
    NearestTourNames(cs, d, path);
    CoverPermutation(path, cs);
  }

  lemma FirstRound(cs: seq<City>, d: Distance)
    requires |cs| > 0
    ensures Partial(cs, d, [cs[0]]) && Names([cs[0]]) == {cs[0].name}
  {
    NamesAppend([], cs[0]);
  }

  /** Appending a round's choice continues the construction with one more
      visited name. */
  lemma Extend(cs: seq<City>, d: Distance, path: seq<City>, c: City)
    requires Partial(cs, d, path)
    requires Nearest(cs, Names(path), d, path[|path| - 1]) == Some(c)
    ensures Partial(cs, d, path + [c])
    ensures c.name !in Names(path) && Names(path + [c]) == Names(path) + {c.name}
    ensures |Names(path + [c])| == |Names(path)| + 1
  {
    NearestChoice(cs, Names(path), d, path[|path| - 1]);
    NamesAppend(path, c);
    var p := path + [c];
    forall t | 1 <= t < |p|
      ensures Nearest(cs, Names(p[..t]), d, p[t - 1]) == Some(p[t])
    {
      if t < |path| {
        assert p[..t] == path[..t];
      } else {
        assert p[..t] == path;
      }
    }
  }

  /** A construction that has visited as many names as the request has
      cities has visited every name, so the next round finds nothing. */
  lemma Exhausted(cs: seq<City>, d: Distance, path: seq<City>)
    requires Partial(cs, d, path) && |Names(path)| >= |cs|
    ensures NearestTour(cs, d, path)
  {
    assert Names(path) <= Names(cs) by {
      forall n | n in Names(path) ensures n in Names(cs) {
        var c :| c in path && c.name == n;
      }
    }
    NamesBound(cs);
    SubsetFull(Names(path), Names(cs));
    NearestChoice(cs, Names(path), d, path[|path| - 1]);
  }

  // ---------------------------------------------------------------------------
  // The strict-`<` scan over the distance matrix

  lemma TakeSnoc(s: seq<City>, t: nat)
    requires t < |s|
    ensures s[..t + 1] == s[..t] + [s[t]]
  {
  }

  /** The inner `for city in cities_sorted` loop of a round. `None` plays
      `closest_city is None` with `closest_dist = float('inf')`: the first
      unvisited city is always taken, a later one only when strictly nearer. */
  method ScanNearest(cs: seq<City>, visited: set<string>, m: seq<seq<real>>, ci: map<string, nat>,
                     current: City, currentIndex: nat)
    returns (closest: Option<City>, closestIndex: nat)
    requires IsMatrix(m, |cs|) && ci == CityIndices(cs)
    requires current.name in ci && currentIndex == ci[current.name]
    ensures closest == Nearest(cs, visited, MatrixDistance(m, ci), current)
    ensures closest.Some? ==> closest.value in cs && closest.value.name in ci && closestIndex == ci[closest.value.name]
  {
    ghost var d := MatrixDistance(m, ci);
    closest := None;
    closestIndex := 0;
    var closestDist := 0.0;
    for t := 0 to |cs|
      invariant closest == Nearest(cs[..t], visited, d, current)
      invariant closest.Some? ==> closestDist == d(current, closest.value)
      invariant closest.Some? ==> closest.value in cs && closest.value.name in ci && closestIndex == ci[closest.value.name]
    {
      var city := cs[t];
      NearestSnoc(cs[..t], city, visited, d, current);
      TakeSnoc(cs, t);
      if city.name !in visited {
        IndexOfMember(cs, city);
        var cityIndex := ci[city.name];
        var dist := m[currentIndex][cityIndex];
        if closest.None? || dist < closestDist {
          closestDist := dist;
          closest := Some(city);
          closestIndex := cityIndex;
        }
      }
    }
    assert cs[..|cs|] == cs;
  }

  /** The `while len(visited) < num_cities` loop of TruePathTCPUP/server.py
      and test/nobruteforcing.py, before the closing city is appended. */
  method BuildByMatrix(cs: seq<City>, m: seq<seq<real>>, ci: map<string, nat>) returns (path: seq<City>)
    requires |cs| > 0 && IsMatrix(m, |cs|) && ci == CityIndices(cs)
    ensures NearestTour(cs, MatrixDistance(m, ci), path)
  {
    ghost var d := MatrixDistance(m, ci);
    path := [cs[0]];
    var visited := {cs[0].name};
    var current := cs[0];
    IndexOfMember(cs, current);
    var currentIndex := ci[current.name];
    FirstRound(cs, d);
    while |visited| < |cs|
      invariant Partial(cs, d, path) && current == path[|path| - 1] && visited == Names(path)
      invariant current.name in ci && currentIndex == ci[current.name]
      decreases |cs| - |visited|
    {
      var closest, closestIndex := ScanNearest(cs, visited, m, ci, current, currentIndex);
      if closest.None? {
        return;
      }
      Extend(cs, d, path, closest.value);
      path := path + [closest.value];
      visited := visited + {closest.value.name};
      current := closest.value;
      currentIndex := closestIndex;
    }
    Exhausted(cs, d, path);
  }

  // ---------------------------------------------------------------------------
  // `min(..., key=lambda city: calculate_distance(current_city, city))`

  /** `(city for city in cities_sorted if city['name'] in unvisited)`. */
  function Candidates(cs: seq<City>, unvisited: set<string>): (u: seq<City>)
    ensures forall c :: c in u <==> c in cs && c.name in unvisited
  {
    if cs == [] then []
    else
      var front := cs[..|cs| - 1];
      var last := cs[|cs| - 1];
      assert cs == front + [last];
      Candidates(front, unvisited) + (if last.name in unvisited then [last] else [])
  }

  /** The generator of candidates is the round's list of unvisited cities. */
  lemma {:induction false} CandidatesAreUnvisited(cs: seq<City>, unvisited: set<string>, visited: set<string>)
    requires forall c :: c in cs ==> (c.name in unvisited <==> c.name !in visited)
    ensures Candidates(cs, unvisited) == Unvisited(cs, visited)
  {
    if cs != [] {
      var front := cs[..|cs| - 1];
      assert cs == front + [cs[|cs| - 1]];
      CandidatesAreUnvisited(front, unvisited, visited);
    }
  }

  /** `min(candidates, key=..., default=None)`: the first candidate nearest to `from`. */
  function MinByDistance(u: seq<City>, d: Distance, from: City): (r: Option<City>)
    ensures r.None? <==> u == []
  {
    if u == [] then None else Some(u[FirstMinIndex(u, d, from)])
  }

  /** The `min` over the candidates is the round's choice under any distance
      function that agrees with `d` from `from`. */
  lemma MinIsNearest(cs: seq<City>, unvisited: set<string>, visited: set<string>,
                     e: Distance, d: Distance, from: City)
    requires forall c :: c in cs ==> (c.name in unvisited <==> c.name !in visited)
    requires forall c :: c in cs ==> e(from, c) == d(from, c)
    ensures MinByDistance(Candidates(cs, unvisited), e, from) == Nearest(cs, visited, d, from)
  {
    var u := Candidates(cs, unvisited);
    CandidatesAreUnvisited(cs, unvisited, visited);
    if u != [] {
      FirstMinAgree(u, e, d, from);
    }
  }

  /** After the warm-up, the dictionary answers every key call of a round as
      the warmed dictionary does. */
  lemma SettledAgree(m: map<MemoKey, real>, snapshot: map<MemoKey, real>, hypot: Hypot,
                     cs: seq<City>, from: City)
    requires Settled(m, snapshot, hypot) && Covers(snapshot, cs) && from in cs
    ensures forall c :: c in cs ==> Effective(m, hypot)(from, c) == Effective(snapshot, hypot)(from, c)
  {
    forall c | c in cs ensures Effective(m, hypot)(from, c) == Effective(snapshot, hypot)(from, c) {
      SettledCall(m, snapshot, hypot, cs, from, c);
    }
  }

  /** The names still to visit after `current` has been taken out of them. */
  lemma Remaining(cs: seq<City>, path: seq<City>, unvisited: set<string>, current: City)
    requires current in path && unvisited == (Names(cs) - Names(path)) + {current.name}
    ensures unvisited - {current.name} == Names(cs) - Names(path)
    ensures |unvisited - {current.name}| < |unvisited|
    ensures forall c :: c in cs ==> (c.name in unvisited - {current.name} <==> c.name !in Names(path))
  {
    assert current.name in Names(path);
    assert unvisited == (unvisited - {current.name}) + {current.name};
  }

  /** Taking the round's choice `c` as the new current city. */
  lemma Advance(cs: seq<City>, path: seq<City>, rest: set<string>, c: City)
    requires rest == Names(cs) - Names(path) && c in cs && c.name !in Names(path)
    ensures rest == (Names(cs) - Names(path + [c])) + {c.name}
  {
    NamesAppend(path, c);
    assert c.name in Names(cs);
  }

  /** The `while unvisited` loop of advanced/server.py and server.py, after
      the memo has been warmed for the request's cities. Each key call pairs
      the current city with a city of another name, whose entry the warm-up
      stored, so the calls only read the dictionary. */
  method BuildByMin(memo: DistanceMemo, cs: seq<City>, ghost snapshot: map<MemoKey, real>) returns (path: seq<City>)
    requires |cs| > 0
    requires Settled(memo.memo, snapshot, memo.hypot) && Covers(snapshot, cs)
    ensures NearestTour(cs, Effective(snapshot, memo.hypot), path)
  {
    var m, hypot := memo.memo, memo.hypot;
    ghost var d := Effective(snapshot, hypot);
    var unvisited := Names(cs);
    path := [cs[0]];
    var current := cs[0];
    FirstRound(cs, d);
    while unvisited != {}
      invariant Partial(cs, d, path) && current == path[|path| - 1]
      invariant unvisited == (Names(cs) - Names(path)) + {current.name}
      decreases |unvisited|
    {
      Remaining(cs, path, unvisited, current);
      unvisited := unvisited - {current.name};
      var closest := MinByDistance(Candidates(cs, unvisited), Effective(m, hypot), current);
      SettledAgree(m, snapshot, hypot, cs, current);
      MinIsNearest(cs, unvisited, Names(path), Effective(m, hypot), d, current);
      if closest.None? {
        return;
      }
      Extend(cs, d, path, closest.value);
      NearestChoice(cs, Names(path), d, current);
      Advance(cs, path, unvisited, closest.value);
      path := path + [closest.value];
      current := closest.value;
    }
  }
}
