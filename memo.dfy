/** `memoize_distance` around `calculate_distance`: a process-wide dictionary
    keyed by the unordered pair of city names (`frozenset`), filled on first
    use and never cleared. `math.hypot` is a parameter; it is applied to the
    magnitudes of the coordinate differences, which is all it depends on. */
module Memo {
  import opened Tour

  type MemoKey = set<string>
  type Hypot = (real, real) -> real

  /** `frozenset((city1['name'], city2['name']))`. */
  function Key(a: City, b: City): (k: MemoKey)
    ensures forall n :: n in k <==> n == a.name || n == b.name
  {
    {a.name, b.name}
  }

  lemma KeySymmetric(a: City, b: City)
    ensures Key(a, b) == Key(b, a)
  {
    assert {a.name, b.name} == {b.name, a.name};
  }

  /** Two calls share a dictionary entry exactly when they name the same two
      cities, in either order. */
  lemma KeyDeterminesNames(a: City, b: City, c: City, d: City)
    ensures Key(a, b) == Key(c, d) <==>
      (a.name == c.name && b.name == d.name) || (a.name == d.name && b.name == c.name)
  {
    if Key(a, b) == Key(c, d) {
      assert a.name in Key(c, d) && b.name in Key(c, d);
      assert c.name in Key(a, b) && d.name in Key(a, b);
    } else if a.name == d.name && b.name == c.name {
      KeySymmetric(c, d);
    }
  }

  function Abs(r: real): (a: real)
    ensures a >= 0.0 && (a == r || a == -r)
  {
    if r < 0.0 then -r else r
  }

  /** The undecorated `calculate_distance`: `math.hypot(dx, dy)`. */
  function Raw(hypot: Hypot, a: City, b: City): real {
    hypot(Abs(a.x - b.x), Abs(a.y - b.y))
  }

  /** The raw distance does not depend on the order of the two cities. */
  lemma RawSymmetric(hypot: Hypot, a: City, b: City)
    ensures Raw(hypot, a, b) == Raw(hypot, b, a)
  {
    assert Abs(a.x - b.x) == Abs(b.x - a.x);
    assert Abs(a.y - b.y) == Abs(b.y - a.y);
  }

  /** `calculate_distance` without the dictionary, as a distance function. */
  function RawDistance(hypot: Hypot): Distance {
    (a: City, b: City) => Raw(hypot, a, b)
  }

  /** What the decorated `calculate_distance(a, b)` returns while the
      dictionary holds `m`: the stored value if the name pair has one. */
  function Eff(m: map<MemoKey, real>, hypot: Hypot, a: City, b: City): real {
    if Key(a, b) in m then m[Key(a, b)] else Raw(hypot, a, b)
  }

  /** The dictionary after a call of `calculate_distance(a, b)`. */
  function Remember(m: map<MemoKey, real>, hypot: Hypot, a: City, b: City): (m': map<MemoKey, real>)
    ensures Key(a, b) in m' && m'[Key(a, b)] == Eff(m, hypot, a, b)
    ensures forall k :: k in m ==> k in m' && m'[k] == m[k]
    ensures forall k :: k in m' ==> k in m || k == Key(a, b)
  {
    if Key(a, b) in m then m else m[Key(a, b) := Raw(hypot, a, b)]
  }

  /** `calculate_distance` as a distance function over a fixed dictionary. */
  function Effective(m: map<MemoKey, real>, hypot: Hypot): Distance {
    (a: City, b: City) => Eff(m, hypot, a, b)
  }

  /** Both argument orders read the same entry, and the raw distance does not
      depend on the order either. */
  lemma EffSymmetric(m: map<MemoKey, real>, hypot: Hypot, a: City, b: City)
    ensures Eff(m, hypot, a, b) == Eff(m, hypot, b, a)
  {
    KeySymmetric(a, b);
    RawSymmetric(hypot, a, b);
  }

  lemma EffectiveSymmetric(m: map<MemoKey, real>, hypot: Hypot)
    ensures Symmetric(Effective(m, hypot))
  {
    forall a: City, b: City ensures Effective(m, hypot)(a, b) == Effective(m, hypot)(b, a) {
      EffSymmetric(m, hypot, a, b);
    }
  }

  /** Once a name pair is stored, every later call for any two cities carrying
      those names returns the stored value, whatever their coordinates. */
  lemma RememberedByName(m: map<MemoKey, real>, hypot: Hypot, a: City, b: City, a': City, b': City)
    requires Key(a', b') == Key(a, b)
    ensures Eff(Remember(m, hypot, a, b), hypot, a', b') == Eff(m, hypot, a, b)
    ensures Remember(Remember(m, hypot, a, b), hypot, a', b') == Remember(m, hypot, a, b)
  {
  }

  // ---------------------------------------------------------------------------
  // The dictionary after the warm-up of a `solve_tsp` call

  /** Every pair of distinct cities of the request has its name pair stored. */
  ghost predicate Covers(m: map<MemoKey, real>, cities: seq<City>) {
    forall a, b :: a in cities && b in cities && a != b ==> Key(a, b) in m
  }

  /** `m` extends the warmed dictionary `snapshot` only by entries for a city
      paired with itself, which hold `hypot(0, 0)`. */
  ghost predicate Settled(m: map<MemoKey, real>, snapshot: map<MemoKey, real>, hypot: Hypot) {
    && (forall k :: k in snapshot ==> k in m && m[k] == snapshot[k])
    && (forall k :: k in m && k !in snapshot ==> m[k] == hypot(0.0, 0.0))
  }

  /** After the warm-up, a call for two cities of the request answers as the
      warmed dictionary does and keeps the dictionary settled: the only pairs
      it can still miss are a city with itself, and `hypot(0, 0)` is what the
      raw distance gives for them. */
  lemma SettledCall(m: map<MemoKey, real>, snapshot: map<MemoKey, real>, hypot: Hypot,
                    cities: seq<City>, a: City, b: City)
    requires Settled(m, snapshot, hypot) && Covers(snapshot, cities)
    requires a in cities && b in cities
    ensures Eff(m, hypot, a, b) == Eff(snapshot, hypot, a, b)
    ensures Settled(Remember(m, hypot, a, b), snapshot, hypot)
  {
    if a == b {
      assert Abs(a.x - b.x) == 0.0 && Abs(a.y - b.y) == 0.0;
    }
  }

  // ---------------------------------------------------------------------------
  // What a run of calls adds to the dictionary

  /** Entry `k` of `m` comes from a call for the cities at positions `p` and
      `q` of `cities`: it is their name pair and holds their raw distance.
      With `byPosition` the two positions differ (the matrix loops compare
      indices); otherwise the two cities differ (the warm-up compares the
      dictionaries). */
  ghost predicate ComputedAt(m: map<MemoKey, real>, hypot: Hypot, cities: seq<City>, byPosition: bool,
                             k: MemoKey, p: int, q: int) {
    && 0 <= p < |cities| && 0 <= q < |cities|
    && (if byPosition then p != q else cities[p] != cities[q])
    && k == Key(cities[p], cities[q]) && k in m && m[k] == Raw(hypot, cities[p], cities[q])
  }

  /** `m` is `m0` after calls for pairs of `cities` only: every entry of `m0`
      is kept, and every entry added is the raw distance of such a pair. */
  ghost predicate GrownBy(m0: map<MemoKey, real>, m: map<MemoKey, real>, hypot: Hypot,
                          cities: seq<City>, byPosition: bool) {
    && (forall k :: k in m0 ==> k in m && m[k] == m0[k])
    && (forall k :: k in m && k !in m0 ==> exists p, q :: ComputedAt(m, hypot, cities, byPosition, k, p, q))
  }

  /** One more call for a pair of `cities` keeps the dictionary grown by them. */
  lemma GrownByCall(m0: map<MemoKey, real>, m: map<MemoKey, real>, hypot: Hypot,
                    cities: seq<City>, byPosition: bool, p: int, q: int)
    requires GrownBy(m0, m, hypot, cities, byPosition)
    requires 0 <= p < |cities| && 0 <= q < |cities|
    requires if byPosition then p != q else cities[p] != cities[q]
    ensures GrownBy(m0, Remember(m, hypot, cities[p], cities[q]), hypot, cities, byPosition)
  {
    var m' := Remember(m, hypot, cities[p], cities[q]);
    forall k | k in m' && k !in m0
      ensures exists p', q' :: ComputedAt(m', hypot, cities, byPosition, k, p', q')
    {
      if k in m {
        var p', q' :| ComputedAt(m, hypot, cities, byPosition, k, p', q');
        assert ComputedAt(m', hypot, cities, byPosition, k, p', q');
      } else {
        assert ComputedAt(m', hypot, cities, byPosition, k, p, q);
      }
    }
  }

  /** Two runs of calls for pairs of `cities` make one. */
  lemma GrownByTrans(m0: map<MemoKey, real>, m1: map<MemoKey, real>, m2: map<MemoKey, real>, hypot: Hypot,
                     cities: seq<City>, byPosition: bool)
    requires GrownBy(m0, m1, hypot, cities, byPosition) && GrownBy(m1, m2, hypot, cities, byPosition)
    ensures GrownBy(m0, m2, hypot, cities, byPosition)
  {
    forall k | k in m2 && k !in m0
      ensures exists p, q :: ComputedAt(m2, hypot, cities, byPosition, k, p, q)
    {
      if k in m1 {
        var p, q :| ComputedAt(m1, hypot, cities, byPosition, k, p, q);
        assert ComputedAt(m2, hypot, cities, byPosition, k, p, q);
      }
    }
  }

  /** Grown from an empty dictionary over a request whose names are
      distinct, the dictionary answers every pair of the request's cities
      with their raw distance: no entry can stand for two other cities. */
  lemma {:induction false} FreshIsRaw(m: map<MemoKey, real>, hypot: Hypot, cities: seq<City>, byPosition: bool)
    requires GrownBy(map[], m, hypot, cities, byPosition) && DistinctNames(cities)
    ensures forall a, b :: a in cities && b in cities ==> Eff(m, hypot, a, b) == Raw(hypot, a, b)
  {
    forall a, b | a in cities && b in cities ensures Eff(m, hypot, a, b) == Raw(hypot, a, b) {
      if Key(a, b) in m {
        var p, q :| ComputedAt(m, hypot, cities, byPosition, Key(a, b), p, q);
        KeyDeterminesNames(a, b, cities[p], cities[q]);
        var i :| 0 <= i < |cities| && cities[i] == a;
        var j :| 0 <= j < |cities| && cities[j] == b;
        if a.name == cities[p].name && b.name == cities[q].name {
          assert i == p && j == q;
        } else {
          assert i == q && j == p;
          RawSymmetric(hypot, a, b);
        }
      }
    }
  }

  /** Under the same conditions a cycle through the request's cities has its
      length under `math.hypot`. */
  lemma FreshCycleCost(m: map<MemoKey, real>, hypot: Hypot, cities: seq<City>, path: seq<City>)
    requires GrownBy(map[], m, hypot, cities, false) && DistinctNames(cities)
    requires forall c :: c in path ==> c in cities
    ensures CycleCost(path, Effective(m, hypot)) == CycleCost(path, RawDistance(hypot))
  {
    FreshIsRaw(m, hypot, cities, false);
    CycleCostAgree(path, Effective(m, hypot), RawDistance(hypot));
  }

  /** The edge that closes a path back onto its start is a city paired with
      itself. From an empty dictionary with distinct names, and with
      `hypot(0, 0) == 0`, it has length zero. */
  lemma FreshSelfEdge(m: map<MemoKey, real>, hypot: Hypot, cities: seq<City>, c: City)
    requires GrownBy(map[], m, hypot, cities, false) && DistinctNames(cities)
    requires c in cities && hypot(0.0, 0.0) == 0.0
    ensures Eff(m, hypot, c, c) == 0.0
  {
    FreshIsRaw(m, hypot, cities, false);
    assert Abs(c.x - c.x) == 0.0 && Abs(c.y - c.y) == 0.0;
  }

  /** When two different cities of the request share a name, a city paired
      with itself is looked up under that name alone, so the self edge is the
      stored distance between the two namesakes, not zero. */
  lemma SharedNameSelfEdge(m: map<MemoKey, real>, hypot: Hypot, cities: seq<City>, a: City, b: City)
    requires Covers(m, cities) && a in cities && b in cities && a != b && a.name == b.name
    ensures Key(a, b) in m && Eff(m, hypot, a, a) == m[Key(a, b)]
  {
    assert Key(a, a) == Key(a, b);
  }

  class DistanceMemo {
    /** `memoized_distances`. */
    var memo: map<MemoKey, real>
    const hypot: Hypot

    constructor (hypot: Hypot)
      ensures memo == map[] && this.hypot == hypot
    {
      memo := map[];
      this.hypot := hypot;
    }

    /** The decorated `calculate_distance(a, b)`: compute and store on the
        first call for the name pair, answer from the dictionary afterwards. */
    method CalculateDistance(a: City, b: City) returns (d: real)
      modifies this
      ensures d == Eff(old(memo), hypot, a, b)
      ensures memo == Remember(old(memo), hypot, a, b)
      ensures d == memo[Key(a, b)] && d == Eff(memo, hypot, b, a)
    {
      var key := Key(a, b);
      if key !in memo {
        memo := memo[key := Raw(hypot, a, b)];
      }
      d := memo[key];
      KeySymmetric(a, b);
    }
  }

  /** `calculate_distance(a, b)` for two cities of a request whose warm-up
      is done: it answers as the warmed dictionary does. */
  method CalculateSettled(memo: DistanceMemo, cities: seq<City>, ghost snapshot: map<MemoKey, real>,
                          a: City, b: City) returns (d: real)
    requires Settled(memo.memo, snapshot, memo.hypot) && Covers(snapshot, cities)
    requires a in cities && b in cities
    modifies memo
    ensures Settled(memo.memo, snapshot, memo.hypot)
    ensures d == Effective(snapshot, memo.hypot)(a, b)
  {
    SettledCall(memo.memo, snapshot, memo.hypot, cities, a, b);
    d := memo.CalculateDistance(a, b);
  }

  /** The calls of the warm-up for row `s` up to column `t` are stored. */
  ghost predicate RowCovered(m: map<MemoKey, real>, cities: seq<City>, s: nat, t: nat)
    requires s < |cities| && t <= |cities|
  {
    forall q :: 0 <= q < t && cities[s] != cities[q] ==> Key(cities[s], cities[q]) in m
  }

  /** The rows of the warm-up before row `s` are stored. */
  ghost predicate RowsCovered(m: map<MemoKey, real>, cities: seq<City>, s: nat)
    requires s <= |cities|
  {
    forall p :: 0 <= p < s ==> RowCovered(m, cities, p, |cities|)
  }

  /** A call keeps the rows already stored. */
  lemma RowsCoveredRemember(m: map<MemoKey, real>, hypot: Hypot, cities: seq<City>, s: nat, a: City, b: City)
    requires s <= |cities| && RowsCovered(m, cities, s)
    ensures RowsCovered(Remember(m, hypot, a, b), cities, s)
  {
    forall p | 0 <= p < s ensures RowCovered(Remember(m, hypot, a, b), cities, p, |cities|) {
      assert RowCovered(m, cities, p, |cities|);
    }
  }

  /** Row `s` of the warm-up comprehension: a call for `cities[s]` and
      every unequal city of the request. */
  method WarmRow(memo: DistanceMemo, cities: seq<City>, s: nat, ghost m0: map<MemoKey, real>)
    requires s < |cities| && RowsCovered(memo.memo, cities, s)
    requires GrownBy(m0, memo.memo, memo.hypot, cities, false)
    modifies memo
    ensures RowsCovered(memo.memo, cities, s + 1)
    ensures GrownBy(m0, memo.memo, memo.hypot, cities, false)
  {
    for t := 0 to |cities|
      invariant RowsCovered(memo.memo, cities, s)
      invariant RowCovered(memo.memo, cities, s, t)
      invariant GrownBy(m0, memo.memo, memo.hypot, cities, false)
    {
      if cities[s] != cities[t] {
        GrownByCall(m0, memo.memo, memo.hypot, cities, false, s, t);
        RowsCoveredRemember(memo.memo, memo.hypot, cities, s, cities[s], cities[t]);
        var _ := memo.CalculateDistance(cities[s], cities[t]);
      }
    }
  }

  /** The unused `distances` comprehension of `solve_tsp`: one call for every
      ordered pair of unequal cities of the request. Afterwards every such
      pair has its name pair stored, nothing stored before has changed, and
      every entry added is the raw distance of such a pair. */
  method WarmUp(memo: DistanceMemo, cities: seq<City>)
    modifies memo
    ensures Covers(memo.memo, cities)
    ensures GrownBy(old(memo.memo), memo.memo, memo.hypot, cities, false)
  {
    for s := 0 to |cities|
      invariant RowsCovered(memo.memo, cities, s)
      invariant GrownBy(old(memo.memo), memo.memo, memo.hypot, cities, false)
    {
      WarmRow(memo, cities, s, old(memo.memo));
    }
    forall a, b | a in cities && b in cities && a != b ensures Key(a, b) in memo.memo {
      var p :| 0 <= p < |cities| && cities[p] == a;
      var q :| 0 <= q < |cities| && cities[q] == b;
      assert RowCovered(memo.memo, cities, p, |cities|);
    }
  }
}
