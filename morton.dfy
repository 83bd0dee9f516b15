/** `morton_order` and the stable `sorted(cities, key=morton_order)` that
    fixes the order in which every `solve_tsp` variant scans the cities. */
module Morton {
  import opened Tour

  /** `int(v * 10000)`: the coordinate scaled and truncated toward zero. */
  function Scaled(v: real): (r: int)
    ensures 0.0 <= v ==> 0 <= r && r as real <= v * 10000.0 < r as real + 1.0
    ensures v < 0.0 ==> r <= 0 && r as real - 1.0 < v * 10000.0 <= r as real
  {
    var s := v * 10000.0;
    if s >= 0.0 then s.Floor else -((-s).Floor)
  }

  /** The low 32 bits of an integer in two's complement. The masks of
      `spread_bits` are 32-bit constants, so no other bit of `v`, `v << 1`,
      `v << 2`, `v << 4` or `v << 8` reaches the result. */
  function LowWord(v: int): bv32 {
    (v % 0x1_0000_0000) as bv32
  }

  /** `spread_bits` on the low word, written as the source groups it: each
      `&` binds tighter than the `|` around it. */
  function Spread32(w: bv32): bv32 {
    ((((w | (w << 8)) & 0x00FF00FF) | ((w | (w << 4)) & 0x0F0F0F0F))
      | ((w | (w << 2)) & 0x33333333))
      | ((w | (w << 1)) & 0x55555555)
  }

  function SpreadBits(v: int): (r: nat)
    ensures r < 0x1_0000_0000
  {
    Spread32(LowWord(v)) as int
  }

  /** `interleave_bits(x, y) = spread_bits(x) | (spread_bits(y) << 1)`. */
  function Interleave(x: int, y: int): (r: nat)
    ensures r < 0x2_0000_0000
  {
    var sx := Spread32(LowWord(x)) as bv64;
    var sy := Spread32(LowWord(y)) as bv64;
    (sx | (sy << 1)) as int
  }

  function MortonKey(c: City): nat {
    Interleave(Scaled(c.x), Scaled(c.y))
  }

  /** Unlike a textbook Morton spread, which sends 2 to 4, `spread_bits`
      ORs four masked copies of the same input: 2 spreads to 6. */
  lemma SpreadOfTwo()
    ensures SpreadBits(2) == 6
  {
    assert LowWord(2) == 2;
    assert Spread32(2) == 6;
  }

  // ---------------------------------------------------------------------------
  // Python's `sorted(s, key=key)`: stable, ascending by key

  type Key = City -> int

  predicate SortedBy(s: seq<City>, key: Key) {
    forall i, j :: 0 <= i < j < |s| ==> key(s[i]) <= key(s[j])
  }

  /** The cities of `s` whose key is `k`, in their order in `s`. */
  function WithKey(s: seq<City>, key: Key, k: int): seq<City> {
    if s == [] then []
    else (if key(s[0]) == k then [s[0]] else []) + WithKey(s[1..], key, k)
  }

  /** Places `c` before the first city whose key is not smaller. */
  function Insert(c: City, t: seq<City>, key: Key): (r: seq<City>)
    ensures |r| == |t| + 1
  {
    if t == [] || key(c) <= key(t[0]) then [c] + t
    else [t[0]] + Insert(c, t[1..], key)
  }

  function SortBy(s: seq<City>, key: Key): (r: seq<City>)
    ensures |r| == |s|
  {
    if s == [] then [] else Insert(s[0], SortBy(s[1..], key), key)
  }

  lemma {:induction false} InsertMultiset(c: City, t: seq<City>, key: Key)
    ensures multiset(Insert(c, t, key)) == multiset([c] + t)
  {
    if !(t == [] || key(c) <= key(t[0])) {
      InsertMultiset(c, t[1..], key);
      assert t == [t[0]] + t[1..];
    }
  }

  lemma {:induction false} InsertSorted(c: City, t: seq<City>, key: Key)
    requires SortedBy(t, key)
    ensures SortedBy(Insert(c, t, key), key)
  {
    if !(t == [] || key(c) <= key(t[0])) {
      var rest := Insert(c, t[1..], key);
      InsertSorted(c, t[1..], key);
      InsertMultiset(c, t[1..], key);
      forall x | x in rest ensures key(t[0]) <= key(x) {
        assert x in multiset(rest);
        if x != c {
          assert x in t[1..];
        }
      }
    }
  }

  lemma {:induction false} InsertWithKey(c: City, t: seq<City>, key: Key, k: int)
    ensures WithKey(Insert(c, t, key), key, k) == WithKey([c] + t, key, k)
  {
    if t == [] || key(c) <= key(t[0]) {
    } else {
      var r := Insert(c, t, key);
      InsertWithKey(c, t[1..], key, k);
      assert r[0] == t[0] && r[1..] == Insert(c, t[1..], key);
      assert ([c] + t)[1..] == t;
      assert ([c] + t[1..])[1..] == t[1..];
    }
  }

  /** `sorted` returns a rearrangement of its input. */
  lemma {:induction false} SortPermutation(s: seq<City>, key: Key)
    ensures multiset(SortBy(s, key)) == multiset(s)
  {
    if s != [] {
      SortPermutation(s[1..], key);
      InsertMultiset(s[0], SortBy(s[1..], key), key);
      assert s == [s[0]] + s[1..];
    }
  }

  /** `sorted` returns its input in non-decreasing key order. */
  lemma {:induction false} SortSorted(s: seq<City>, key: Key)
    ensures SortedBy(SortBy(s, key), key)
  {
    if s != [] {
      SortSorted(s[1..], key);
      InsertSorted(s[0], SortBy(s[1..], key), key);
    }
  }

  /** `sorted` is stable: the cities sharing a key keep their input order. */
  lemma {:induction false} SortStable(s: seq<City>, key: Key, k: int)
    ensures WithKey(SortBy(s, key), key, k) == WithKey(s, key, k)
  {
    if s != [] {
      SortStable(s[1..], key, k);
      InsertWithKey(s[0], SortBy(s[1..], key), key, k);
      assert ([s[0]] + SortBy(s[1..], key))[1..] == SortBy(s[1..], key);
    }
  }

  /** `sorted(cities, key=morton_order)`. */
  function MortonSorted(cities: seq<City>): (r: seq<City>)
    ensures |r| == |cities|
  {
    SortBy(cities, MortonKey)
  }
}
