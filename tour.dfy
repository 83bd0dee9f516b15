/** Cities, tours and their lengths, shared by every `solve_tsp` variant.

    A city is the request's `{'name', 'x', 'y'}` dictionary. A tour is a list
    of cities; `solve_tsp` closes it by appending a copy of its first city.
    Lengths are sums of a distance function `d` over consecutive cities; the
    solvers instantiate `d` with the memoised `calculate_distance` or with the
    distance matrix. */
module Tour {

  datatype City = City(name: string, x: real, y: real)

  type Distance = (City, City) -> real

  ghost predicate Symmetric(d: Distance) {
    forall a: City, b: City :: d(a, b) == d(b, a)
  }

  // ---------------------------------------------------------------------------
  // Names

  function Names(s: seq<City>): set<string> {
    set c | c in s :: c.name
  }

  /** No two positions carry the same city name. */
  predicate DistinctNames(s: seq<City>) {
    forall i, j :: 0 <= i < j < |s| ==> s[i].name != s[j].name
  }

  lemma NamesSplit(s: seq<City>)
    requires |s| > 0
    ensures Names(s) == {s[0].name} + Names(s[1..])
  {
    forall n | n in Names(s) ensures n in {s[0].name} + Names(s[1..]) {
      var c :| c in s && c.name == n;
      if c != s[0] {
        assert c in s[1..];
      }
    }
  }

  lemma NamesAppend(s: seq<City>, c: City)
    ensures Names(s + [c]) == Names(s) + {c.name}
  {
    assert forall e :: e in s + [c] <==> e in s || e == c;
  }

  /** Permuting a list of cities keeps its name set. */
  lemma NamesOfPermutation(s: seq<City>, t: seq<City>)
    requires multiset(s) == multiset(t)
    ensures Names(s) == Names(t)
  {
    assert forall e :: e in s <==> e in multiset(s);
    assert forall e :: e in t <==> e in multiset(t);
  }

  lemma {:induction false} NamesBound(s: seq<City>)
    ensures |Names(s)| <= |s|
  {
    if s != [] {
      NamesSplit(s);
      NamesBound(s[1..]);
    }
  }

  /** Names are distinct exactly when there are as many names as cities. */
  lemma {:induction false} DistinctNamesCount(s: seq<City>)
    ensures DistinctNames(s) <==> |Names(s)| == |s|
  {
    if s != [] {
      NamesSplit(s);
      DistinctNamesCount(s[1..]);
      NamesBound(s[1..]);
      if DistinctNames(s) {
        assert DistinctNames(s[1..]);
        forall c | c in s[1..] ensures c.name != s[0].name {
          var j :| 0 <= j < |s[1..]| && s[1..][j] == c;
          assert s[1..][j] == s[j + 1];
        }
      }
      if |Names(s)| == |s| {
        assert s[0].name !in Names(s[1..]);
        forall i, j | 0 <= i < j < |s| ensures s[i].name != s[j].name {
          if i == 0 {
            assert s[j] in s[1..];
          } else {
            assert s[1..][i - 1] == s[i] && s[1..][j - 1] == s[j];
          }
        }
      }
    }
  }

  /** In a list with distinct names every city occurs at most once. */
  lemma {:induction false} DistinctCount(s: seq<City>, x: City)
    requires DistinctNames(s)
    ensures multiset(s)[x] == if x in s then 1 else 0
  {
    if s != [] {
      assert s == [s[0]] + s[1..];
      assert DistinctNames(s[1..]);
      DistinctCount(s[1..], x);
      if x == s[0] {
        forall j | 0 <= j < |s[1..]| ensures s[1..][j] != x {
          assert s[1..][j] == s[j + 1];
        }
      }
    }
  }

  /** Two name-distinct lists with the same members are permutations of each other. */
  lemma DistinctPermutation(p: seq<City>, s: seq<City>)
    requires DistinctNames(p) && DistinctNames(s)
    requires forall x :: x in p <==> x in s
    ensures multiset(p) == multiset(s)
  {
    forall x ensures multiset(p)[x] == multiset(s)[x] {
      DistinctCount(p, x);
      DistinctCount(s, x);
    }
  }

  // ---------------------------------------------------------------------------
  // Reversal and the 2-opt move

  /** `s[::-1]`, and `reversed(s)`. */
  function Rev(s: seq<City>): (r: seq<City>)
    ensures |r| == |s|
    ensures forall t :: 0 <= t < |s| ==> r[t] == s[|s| - 1 - t]
  {
    if s == [] then [] else Rev(s[1..]) + [s[0]]
  }

  lemma {:induction false} RevMultiset(s: seq<City>)
    ensures multiset(Rev(s)) == multiset(s)
  {
    if s != [] {
      RevMultiset(s[1..]);
      assert s == [s[0]] + s[1..];
    }
  }

  /** `path[:i] + path[i:k+1][::-1] + path[k+1:]`: the stretch from `i` to `k`
      reversed, every other position untouched. The in-place form
      `path[i:k+1] = reversed(path[i:k+1])` leaves the list in the same state. */
  function Swap(p: seq<City>, i: nat, k: nat): (r: seq<City>)
    requires i <= k < |p|
    ensures |r| == |p|
    ensures forall t :: 0 <= t < |p| && !(i <= t <= k) ==> r[t] == p[t]
    ensures forall t :: i <= t <= k ==> r[t] == p[i + k - t]
  {
    p[..i] + Rev(p[i..k + 1]) + p[k + 1..]
  }

  /** A 2-opt move only rearranges the cities. */
  lemma SwapMultiset(p: seq<City>, i: nat, k: nat)
    requires i <= k < |p|
    ensures multiset(Swap(p, i, k)) == multiset(p)
  {
    var a, s, b := p[..i], p[i..k + 1], p[k + 1..];
    assert Swap(p, i, k) == a + Rev(s) + b;
    assert p == a + s + b;
    assert multiset(Rev(s)) == multiset(s) by {
      RevMultiset(s);
    }
    assert multiset(a + Rev(s) + b) == multiset(a) + multiset(Rev(s)) + multiset(b);
    assert multiset(a + s + b) == multiset(a) + multiset(s) + multiset(b);
  }

  // ---------------------------------------------------------------------------
  // Lengths

  /** The sum of `d` over consecutive pairs: the length of `p` walked as an open path. */
  function OpenCost(p: seq<City>, d: Distance): real {
    if |p| <= 1 then 0.0 else d(p[0], p[1]) + OpenCost(p[1..], d)
  }

  /** `sum(d(p[i], p[(i + 1) % len(p)]) for i in range(len(p)))`: the length
      of `p` read as a cycle. */
  function CycleCost(p: seq<City>, d: Distance): real {
    if p == [] then 0.0 else OpenCost(p, d) + d(p[|p| - 1], p[0])
  }

  /** Two distances that agree on every pair of cities of `p` give `p` the
      same length. */
  lemma {:induction false} OpenCostAgree(p: seq<City>, d: Distance, e: Distance)
    requires forall a, b :: a in p && b in p ==> d(a, b) == e(a, b)
    ensures OpenCost(p, d) == OpenCost(p, e)
  {
    if |p| > 1 {
      OpenCostAgree(p[1..], d, e);
    }
  }

  lemma CycleCostAgree(p: seq<City>, d: Distance, e: Distance)
    requires forall a, b :: a in p && b in p ==> d(a, b) == e(a, b)
    ensures CycleCost(p, d) == CycleCost(p, e)
  {
    OpenCostAgree(p, d, e);
  }

  /** The same sum written term by term with the index arithmetic of the source. */
  function WrapSum(p: seq<City>, d: Distance, n: nat): real
    requires n <= |p|
  {
    if n == 0 then 0.0 else WrapSum(p, d, n - 1) + d(p[n - 1], p[n % |p|])
  }

  lemma {:induction false} WrapSumOpen(p: seq<City>, d: Distance, n: nat)
    requires n < |p|
    ensures WrapSum(p, d, n) == OpenCost(p[..n + 1], d)
  {
    if n > 0 {
      WrapIndex(n - 1, |p|);
      WrapSumOpen(p, d, n - 1);
      OpenSnoc(p[..n], p[n], d);
      assert p[..n] + [p[n]] == p[..n + 1];
    }
  }

  /** `CycleCost` is the source's wrapped sum. */
  lemma CycleCostIsWrapSum(p: seq<City>, d: Distance)
    ensures CycleCost(p, d) == WrapSum(p, d, |p|)
  {
    if p != [] {
      WrapSumOpen(p, d, |p| - 1);
      assert p[..|p|] == p;
    }
  }

  lemma {:induction false} OpenSnoc(p: seq<City>, c: City, d: Distance)
    requires |p| > 0
    ensures OpenCost(p + [c], d) == OpenCost(p, d) + d(p[|p| - 1], c)
  {
    if |p| == 1 {
      assert (p + [c])[1..] == [c];
    } else {
      assert (p + [c])[1..] == p[1..] + [c];
      OpenSnoc(p[1..], c, d);
    }
  }

  /** The length of a concatenation: both parts plus the edge that joins them. */
  lemma {:induction false} OpenConcat(a: seq<City>, b: seq<City>, d: Distance)
    requires |a| > 0 && |b| > 0
    ensures OpenCost(a + b, d) == OpenCost(a, d) + d(a[|a| - 1], b[0]) + OpenCost(b, d)
  {
    if |a| == 1 {
      assert (a + b)[1..] == b;
    } else {
      assert (a + b)[1..] == a[1..] + b;
      OpenConcat(a[1..], b, d);
    }
  }

  /** Walking a stretch backwards costs the same when `d` is symmetric. */
  lemma {:induction false} OpenRev(s: seq<City>, d: Distance)
    requires Symmetric(d)
    ensures OpenCost(Rev(s), d) == OpenCost(s, d)
  {
    if |s| > 1 {
      OpenRev(s[1..], d);
      OpenConcat(Rev(s[1..]), [s[0]], d);
      assert d(s[1], s[0]) == d(s[0], s[1]);
    }
  }

  /** Reversing a middle stretch `s` between non-empty `a` and `b` swaps its
      two joining edges and keeps everything else. */
  lemma OpenDeltaInner(a: seq<City>, s: seq<City>, b: seq<City>, d: Distance)
    requires Symmetric(d)
    requires |a| > 0 && |s| > 0 && |b| > 0
    ensures OpenCost(a + Rev(s) + b, d) + d(a[|a| - 1], s[0]) + d(s[|s| - 1], b[0])
         == OpenCost(a + s + b, d) + d(a[|a| - 1], s[|s| - 1]) + d(s[0], b[0])
  {
    OpenRev(s, d);
    OpenConcat(a, s, d);
    OpenConcat(a, Rev(s), d);
    OpenConcat(a + s, b, d);
    OpenConcat(a + Rev(s), b, d);
  }

  /** Reversing a final stretch `s` after a non-empty `a`, read as a cycle. */
  lemma CycleDeltaTail(a: seq<City>, s: seq<City>, d: Distance)
    requires Symmetric(d)
    requires |a| > 0 && |s| > 0
    ensures CycleCost(a + Rev(s), d) + d(a[|a| - 1], s[0]) + d(s[|s| - 1], a[0])
         == CycleCost(a + s, d) + d(a[|a| - 1], s[|s| - 1]) + d(s[0], a[0])
  {
    OpenRev(s, d);
    OpenConcat(a, s, d);
    OpenConcat(a, Rev(s), d);
    assert (a + s)[0] == a[0] && (a + Rev(s))[0] == a[0];
    assert (a + Rev(s))[|a| + |s| - 1] == s[0];
  }

  /** The successor index `(j + 1) % n` of the source. */
  lemma WrapIndex(j: nat, n: nat)
    requires j < n
    ensures (j + 1) % n == if j + 1 < n then j + 1 else 0
  {
  }

  /** The four-edge identity behind every 2-opt test: reversing the stretch
      from `i` to `j` (1 <= i < j <= |p| - 1) of a cycle replaces the edges
      (p[i-1], p[i]) and (p[j], p[(j+1) % |p|]) by (p[i-1], p[j]) and
      (p[i], p[(j+1) % |p|]), and nothing else changes. */
  lemma TwoOptDelta(p: seq<City>, i: nat, j: nat, d: Distance)
    requires Symmetric(d)
    requires 1 <= i < j < |p|
    ensures CycleCost(Swap(p, i, j), d) ==
      CycleCost(p, d) - (d(p[i - 1], p[i]) + d(p[j], p[(j + 1) % |p|]))
                      + (d(p[i - 1], p[j]) + d(p[i], p[(j + 1) % |p|]))
  {
    var a, s, b := p[..i], p[i..j + 1], p[j + 1..];
    assert p == a + s + b;
    assert a[|a| - 1] == p[i - 1] && s[0] == p[i] && s[|s| - 1] == p[j];
    WrapIndex(j, |p|);
    if j + 1 < |p| {
      OpenDeltaInner(a, s, b, d);
      assert (a + s + b)[|p| - 1] == (a + Rev(s) + b)[|p| - 1];
    } else {
      assert b == [] && p == a + s && Swap(p, i, j) == a + Rev(s);
      CycleDeltaTail(a, s, d);
    }
  }

  /** `total_distance` of a closed tour (first city appended again): the cycle
      length of the tour plus the self-edge from the copy back to the start. */
  lemma ClosedTotal(t: seq<City>, d: Distance)
    requires |t| > 0
    ensures CycleCost(t + [t[0]], d) == CycleCost(t, d) + d(t[0], t[0])
  {
    OpenSnoc(t, t[0], d);
  }
}
