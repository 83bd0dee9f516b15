/** The distance matrix of TruePathTCPUP/server.py and test/nobruteforcing.py
    and the name-to-position table it is read through.

    The matrix is filled in the order of the request (`cities[i]`,
    `cities[j]`), while the table gives positions in the Morton-sorted list.
    The two orders differ as soon as sorting moves a city, and every read
    then takes the entry of the cities at those positions of the request.
    `MatrixReadsRequestOrder` states what is read; the model keeps this
    behaviour. */
module Matrix {
  import opened Tour
  import opened Memo

  /** `{city['name']: idx for idx, city in enumerate(cities_sorted)}`: a
      repeated name keeps its last position. */
  function CityIndices(cs: seq<City>): (ci: map<string, nat>)
    ensures ci.Keys == Names(cs)
    ensures forall n :: n in ci ==> ci[n] < |cs| && cs[ci[n]].name == n
    ensures forall n, j :: n in ci && ci[n] < j < |cs| ==> cs[j].name != n
  {
    if cs == [] then map[]
    else
      var front := cs[..|cs| - 1];
      assert cs == front + [cs[|cs| - 1]];
      NamesAppend(front, cs[|cs| - 1]);
      CityIndices(front)[cs[|cs| - 1].name := |cs| - 1]
  }

  /** With distinct names every city is found at its own position. */
  lemma CityIndicesDistinct(cs: seq<City>, i: nat)
    requires DistinctNames(cs) && i < |cs|
    ensures CityIndices(cs)[cs[i].name] == i
  {
    var ci := CityIndices(cs);
    assert cs[i].name in Names(cs);
  }

  /** Every city of the request has an index in the table. */
  lemma IndexOfMember(cs: seq<City>, c: City)
    requires c in cs
    ensures c.name in CityIndices(cs) && CityIndices(cs)[c.name] < |cs|
  {
  }

  predicate IsMatrix(m: seq<seq<real>>, n: nat) {
    |m| == n && forall i :: 0 <= i < n ==> |m[i]| == n
  }

  /** `distance_matrix[city_indices[a['name']]][city_indices[b['name']]]`. */
  function Entry(m: seq<seq<real>>, ci: map<string, nat>, a: City, b: City): real {
    if a.name in ci && b.name in ci && ci[a.name] < |m| && ci[b.name] < |m[ci[a.name]]|
    then m[ci[a.name]][ci[b.name]]
    else 0.0
  }

  function MatrixDistance(m: seq<seq<real>>, ci: map<string, nat>): Distance {
    (a: City, b: City) => Entry(m, ci, a, b)
  }

  /** `m` is the filled `distance_matrix`: zero on the diagonal, and
      elsewhere the memo's entry for the two cities at those positions of
      the request. */
  ghost predicate MatrixOf(m: seq<seq<real>>, cities: seq<City>, memo: map<MemoKey, real>) {
    && IsMatrix(m, |cities|)
    && (forall i :: 0 <= i < |cities| ==> m[i][i] == 0.0)
    && (forall i, j :: 0 <= i < |cities| && 0 <= j < |cities| && i != j ==>
          Key(cities[i], cities[j]) in memo && m[i][j] == memo[Key(cities[i], cities[j])])
  }

  /** The inner `for j in range(num_cities)` loop for row `i`: every entry
      off the diagonal is the memo's entry for the pair, and the memo grows
      only by raw distances of pairs at two positions of the request. */
  method FillRow(memo: DistanceMemo, cities: seq<City>, i: nat, row0: seq<real>) returns (row: seq<real>)
    requires i < |cities| && |row0| == |cities|
    modifies memo
    ensures |row| == |cities| && row[i] == row0[i]
    ensures forall j :: 0 <= j < |cities| && j != i ==>
      Key(cities[i], cities[j]) in memo.memo && row[j] == memo.memo[Key(cities[i], cities[j])]
    ensures GrownBy(old(memo.memo), memo.memo, memo.hypot, cities, true)
  {
    row := row0;
    for j := 0 to |cities|
      invariant |row| == |cities| && row[i] == row0[i]
      invariant forall j' :: 0 <= j' < j && j' != i ==>
        Key(cities[i], cities[j']) in memo.memo && row[j'] == memo.memo[Key(cities[i], cities[j'])]
      invariant GrownBy(old(memo.memo), memo.memo, memo.hypot, cities, true)
    {
      if i != j {
        GrownByCall(old(memo.memo), memo.memo, memo.hypot, cities, true, i, j);
        var dist := memo.CalculateDistance(cities[i], cities[j]);
        row := row[j := dist];
      }
    }
  }

  /** `distance_matrix = [[0] * num_cities for _ in range(num_cities)]` and
      the nested loops that fill it through the memo. */
  method FillMatrix(memo: DistanceMemo, cities: seq<City>) returns (m: seq<seq<real>>)
    modifies memo
    ensures MatrixOf(m, cities, memo.memo)
    ensures GrownBy(old(memo.memo), memo.memo, memo.hypot, cities, true)
  {
    var n := |cities|;
    m := seq(n, _ => seq(n, _ => 0.0));
    for i := 0 to n
      invariant IsMatrix(m, n)
      invariant forall p :: 0 <= p < n ==> m[p][p] == 0.0
      invariant RowsFilled(m, cities, memo.memo, i)
      invariant GrownBy(old(memo.memo), memo.memo, memo.hypot, cities, true)
    {
      ghost var before := memo.memo;
      var row := FillRow(memo, cities, i, m[i]);
      GrownByTrans(old(memo.memo), before, memo.memo, memo.hypot, cities, true);
      RowsFilledStep(m, cities, before, memo.memo, i, row);
      m := m[i := row];
    }
  }

  /** Rows before `i` hold the memo's entries off the diagonal. */
  ghost predicate RowsFilled(m: seq<seq<real>>, cities: seq<City>, memo: map<MemoKey, real>, i: nat)
    requires IsMatrix(m, |cities|) && i <= |cities|
  {
    forall p, q :: 0 <= p < i && 0 <= q < |cities| && p != q ==>
      Key(cities[p], cities[q]) in memo && m[p][q] == memo[Key(cities[p], cities[q])]
  }

  /** Storing a filled row `i` extends the filled rows by one, as long as the
      memo keeps what it held. */
  lemma RowsFilledStep(m: seq<seq<real>>, cities: seq<City>, memo0: map<MemoKey, real>,
                       memo1: map<MemoKey, real>, i: nat, row: seq<real>)
    requires IsMatrix(m, |cities|) && i < |cities| && RowsFilled(m, cities, memo0, i)
    requires forall k :: k in memo0 ==> k in memo1 && memo1[k] == memo0[k]
    requires |row| == |cities|
    requires forall j :: 0 <= j < |cities| && j != i ==>
      Key(cities[i], cities[j]) in memo1 && row[j] == memo1[Key(cities[i], cities[j])]
    ensures IsMatrix(m[i := row], |cities|) && RowsFilled(m[i := row], cities, memo1, i + 1)
  {
  }

  /** Filled from an empty memo for a request with distinct names, the
      matrix holds `math.hypot` of the coordinate differences of the two
      cities at those positions of the request. */
  lemma FreshMatrixIsRaw(m: seq<seq<real>>, cities: seq<City>, memo: map<MemoKey, real>, hypot: Hypot)
    requires MatrixOf(m, cities, memo) && GrownBy(map[], memo, hypot, cities, true)
    requires DistinctNames(cities)
    ensures forall i, j :: 0 <= i < |cities| && 0 <= j < |cities| && i != j ==>
      m[i][j] == Raw(hypot, cities[i], cities[j])
  {
    FreshIsRaw(memo, hypot, cities, true);
    forall i, j | 0 <= i < |cities| && 0 <= j < |cities| && i != j
      ensures m[i][j] == Raw(hypot, cities[i], cities[j])
    {
      assert Eff(memo, hypot, cities[i], cities[j]) == Raw(hypot, cities[i], cities[j]);
    }
  }

  /** Both orders of a pair read one memo entry, so the matrix is symmetric. */
  lemma MatrixSymmetric(m: seq<seq<real>>, cities: seq<City>, memo: map<MemoKey, real>)
    requires MatrixOf(m, cities, memo)
    ensures forall i, j :: 0 <= i < |cities| && 0 <= j < |cities| ==> m[i][j] == m[j][i]
  {
    forall i, j | 0 <= i < |cities| && 0 <= j < |cities| ensures m[i][j] == m[j][i] {
      KeySymmetric(cities[i], cities[j]);
    }
  }

  /** Read through any name table, a symmetric matrix gives a symmetric distance. */
  lemma MatrixDistanceSymmetric(m: seq<seq<real>>, ci: map<string, nat>, n: nat)
    requires IsMatrix(m, n)
    requires forall i, j :: 0 <= i < n && 0 <= j < n ==> m[i][j] == m[j][i]
    ensures Symmetric(MatrixDistance(m, ci))
  {
  }

  /** What a read of the filled matrix returns for two cities of the sorted
      list with different names: the memo entry of the two cities of the
      request at their sorted positions. */
  lemma MatrixReadsRequestOrder(m: seq<seq<real>>, cities: seq<City>, memo: map<MemoKey, real>,
                                sorted: seq<City>, a: City, b: City)
    requires MatrixOf(m, cities, memo) && |sorted| == |cities|
    requires a in sorted && b in sorted && a.name != b.name
    ensures var ci := CityIndices(sorted);
      MatrixDistance(m, ci)(a, b) == memo[Key(cities[ci[a.name]], cities[ci[b.name]])]
  {
    IndexOfMember(sorted, a);
    IndexOfMember(sorted, b);
  }
}
