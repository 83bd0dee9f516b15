# TravelingPacketProblem in Dafny

A model of the job server in TravelingPacketProblem, a small Python service
that solves travelling-salesman requests. A client sends a list of cities
(each with a `name`, `x` and `y`) together with a checksum of that list.
The server:

1. verifies the checksum, or keys the request by the checksum of its raw text;
2. answers repeated requests from an insertion-ordered cache with FIFO eviction;
3. otherwise sorts the cities along a Morton (Z-order) curve;
4. builds a nearest-neighbour tour;
5. improves the tour with 2-opt reversals.

All distances go through a process-wide memo keyed by the unordered pair of
city names. The checksum and a few random-looking helpers live in the
`QPRx2025` toolkit:

- `custom_hash`, a 32-bit FNV-1a checksum;
- `xor_cipher`;
- `mix_entropy`, `lcg` and a re-seeded Mersenne Twister;
- `quantum_polls_relay` and its users;
- `generate_uuid`, which produces version-4 UUIDs (RFC 4122, section 4.4).

The repository copies this logic, with variations, into several files.
The model keeps each variant and shares what is identical.

| module | file | what it holds |
|---|---|---|
| `Wrappers` | wrappers.dfy | `Option` and `Result` |
| `Bits` | bits.dfy | Python's `^` and `&` on non-negative integers, with their algebra |
| `Checksum` | checksum.dfy | `custom_hash` (`hashing`, `verify_hash`) and `xor_cipher` |
| `Uuid` | uuid.dfy | the 36-character UUID rendering of 16 bytes and its parser |
| `Qprx` | qprx.dfy | the `QPRx2025` generator: `mix_entropy`, `lcg`, `mersenne_twister`, `quantum_polls_relay`, `generate_characters`, `the_options`, `the_rewarded`, `generate_uuid` |
| `Tour` | tour.dfy | cities, names, the `two_opt_swap` reversal, path and cycle lengths, the four-edge identity |
| `Morton` | morton.dfy | `spread_bits`, `interleave_bits`, `morton_order`, and Python's stable `sorted` |
| `Memo` | memo.dfy | `memoize_distance`/`calculate_distance` as the `DistanceMemo` class, and the warm-up pass |
| `Matrix` | matrix.dfy | `distance_matrix` and `city_indices` |
| `Construct` | construct.dfy | the two nearest-neighbour constructions: a strict-`<` scan over the matrix, and `min(..., key=calculate_distance)` |
| `TwoOpt` | twoopt.dfy | copy-and-recompute 2-opt, and in-place four-edge 2-opt |
| `Interleaved` | interleaved.dfy | the construction of test/TSPhashing.py, with 2-opt sweeps after every step |
| `Solver` | solver.dfy | the three `solve_tsp` variants and their result dictionaries |
| `Cache` | cache.dfy | `processed_requests` as the `RequestCache` class |
| `Server` | server.dfy | both forms of `process_request`, and the client's request envelope |

How the model represents the source:

- **Cities.** A city is a datatype with a name and real coordinates.
  `math.hypot` is a parameter of the memo.
- **The memo.** The memo is a `map<set<string>, real>`. After the warm-up
  pass (`distances = {...}`, or the filling of `distance_matrix`), every
  pair of distinct request cities has an entry. From then on every
  `calculate_distance` call answers as the warmed dictionary does.
  - `Settled` says what that means: later calls may only add entries for a
    city paired with itself, and those hold `hypot(0, 0)`.
  - This is why the tour properties are stated against
    `Effective(snapshot, hypot)`, the distance the warmed dictionary gives.
    That distance is symmetric.
  - `GrownBy` says what the warm-up and the matrix fill add: every older
    entry is kept, and every new entry is `math.hypot` of a pair of request
    cities under their names. From an empty memo and with unique names, the
    memoised distance is therefore the plain `math.hypot` distance
    (`Memo.FreshIsRaw`). With repeated names, an entry stored for one city
    answers for another city with the same name.
- **The matrix variant.** TruePathTCPUP/server.py and test/nobruteforcing.py
  fill `distance_matrix` in the order of the request, but read it through
  `city_indices`, the positions in the Morton-sorted list. The model keeps
  this as written:
  - `MatrixDistance(m, CityIndices(sorted))` is the distance the
    construction and `calculate_total_distance` see;
  - `Matrix.MatrixReadsRequestOrder` states which memo entry such a read
    returns;
  - `Matrix.MatrixSymmetric` shows that the matrix is still symmetric, so
    the 2-opt facts hold for it.
- **The 2-opt spans.**
  - advanced/server.py and server.py run `i` over `[1, len-3]` and `j` over
    `[i+1, len-2]` on the closed path. That is span `len(path) - 1`.
  - The sweeps inside the construction of test/TSPhashing.py use span
    `len(path)`.
  - In both, index 0 and everything from the span on never move
    (`TwoOpt.Rearranged`).
- **Errors.** The verifying `process_request` turns any exception into
  `{"error": str(e)}`. The model returns `Error(message)` for each exception
  the code can raise:
  - the decoder's message;
  - `KeyError` as `'data'` or `'hash'`;
  - `IndexError` from `cities_sorted[0]` or from `calculate_total_distance`,
    as `list index out of range`.

## Model

| member | source | states |
|---|---|---|
| Checksum.Hashing | advanced/client.py:89-95 | The digest is the FNV-1a fold (basis 0x811c9dc5, prime 0x01000193, kept below 2^32) of `input + salt`, rendered as exactly eight lowercase hex digits |
| Checksum.ParseHexRoundTrip | advanced/client.py:95 | Reading back the fixed-width lowercase rendering of any `n < 16^width` gives `n` |
| Checksum.DigestDeterminesAccumulator | advanced/client.py:94-95 | The eight digits read back are the 32-bit accumulator, so two digests agree exactly when the accumulators do |
| Checksum.FoldAppend | advanced/client.py:92-94 | Folding `s + t` is folding `t` after `s` |
| Checksum.SaltIsAppended | advanced/client.py:89-95 | The salt is appended before hashing: `hashing(s, t)` is `hashing(s + t, '')`, and the accumulator of `s + t` continues that of `s` |
| Checksum.VerifyHash | advanced/client.py:97-98 | True exactly when the given text equals the digest of `input + salt` |
| Checksum.CustomHash | advanced/client.py:88-102 | A string `hash_val` yields the verdict of `verify_hash`; otherwise the digest text |
| Checksum.CustomHashAcceptsOwnDigest | advanced/client.py:88-102 | Verifying a digest produced by `custom_hash` with the same input and salt yields true |
| Checksum.XorCipher | advanced/client.py:104-105 | Same length, and each position is the XOR of the input with the key cycled by `i % len(key)`. It fails with division by zero exactly for a non-empty input and an empty key, and fails exactly when some XOR leaves the code-point range |
| Checksum.XorCipherInvolution | advanced/client.py:104-105 | Applying the cipher twice with the same key gives the input back |
| Checksum.XorCipherAsciiSucceeds | advanced/client.py:104-105 | With a non-empty key, ASCII input and an ASCII key the cipher succeeds and stays ASCII |
| Qprx.MixEntropy | advanced/client.py:17-18 | `mix_entropy(v)` equals `(v >> 32) ^ (v >> 16) ^ (v >> 8)`: the two outer `value` terms cancel |
| Qprx.XorOuterCancels | advanced/client.py:18 | `v ^ p ^ q ^ r ^ v == p ^ q ^ r` |
| Qprx.LcgNext | advanced/client.py:24 | The new seed lies in `[0, 2^32)` whatever the seed and entropy |
| Qprx.Generator.constructor | advanced/client.py:7-9 | The seed is `seed % 1000000` and the entropy is mixed from the clock reading |
| Qprx.Generator.Lcg | advanced/client.py:20-26 | The seed takes one LCG step with the stored entropy, the entropy is re-mixed from the new seed plus the clock, and the new seed is returned |
| Qprx.Initialize | advanced/client.py:32-35 | The 624-word table starts with the seed and follows the initialisation recurrence, all modulo 2^32 |
| Qprx.GenerateNumbers | advanced/client.py:37-42 | The table becomes 624 in-place twist rounds of the old table |
| Qprx.TwistKeepsEarlierWords | advanced/client.py:38-42 | Twist rounds after round `k` never rewrite word `k` |
| Qprx.MtOutputUsesFirstRoundOnly | advanced/client.py:44-57 | Since `index` restarts at 0, the output is the tempered result of the first twist round on the fresh table |
| Qprx.Generator.MersenneTwister | advanced/client.py:28-57 | The output is a function of the current seed alone, and the generator's state is unchanged |
| Qprx.Reduce | advanced/client.py:64 | `(lcg + mt) % 1000000 % max_val` is below `max_val` and below 1000000 |
| Qprx.Generator.QuantumPollsRelay | advanced/client.py:59-64 | A non-positive `max_val` raises the source's `ValueError` and changes nothing. Otherwise there is one LCG step, and the value is the reduction of the new seed and the twister output, within `[0, max_val)` |
| Qprx.Drawn | advanced/client.py:69 | `k` draws give `k` characters, each from `CHARACTERS` |
| Qprx.Generator.GenerateCharacters | advanced/client.py:66-69 | A non-positive length raises the source's error. Otherwise the result is `length` relay-chosen characters and the state takes `length` steps |
| Qprx.Generator.TheOptions | advanced/client.py:71-74 | An empty list raises `No options provided`. Otherwise one step, and the element at the relay index, a member of the list |
| Qprx.Generator.TheRewarded | advanced/client.py:76-79 | An empty list raises `No participants provided`. Otherwise one step, and the element at the relay index, a member of the list |
| Bits.AndLowMask | advanced/client.py:82 | Python's `a & (2**n - 1)` on a non-negative integer keeps its low `n` bits: it is `a % 2**n` |
| Qprx.LowByteIsMask | advanced/client.py:82 | `mersenne_twister() + quantum_polls_relay(256) & 0xff` (with `+` binding tighter), `&` taken on unbounded integers, is the sum modulo 256 |
| Qprx.Generator.DrawUuidBytes | advanced/client.py:82 | Sixteen bytes, each from a twister call then a relay draw, in source order |
| Qprx.SetVersion | advanced/client.py:83 | Byte 6 lands in `[0x40, 0x4f]` and keeps its low nibble |
| Qprx.SetVersionIsMask | advanced/client.py:83 | That value is the bitwise or of `b & 0x0f` with `0x40` |
| Qprx.SetVariant | advanced/client.py:84 | Byte 8 lands in `[0x80, 0xbf]` and keeps its low six bits |
| Qprx.SetVariantIsMask | advanced/client.py:84 | That value is the bitwise or of `b & 0x3f` with `0x80` |
| Qprx.FixUp | advanced/client.py:82-84 | Only bytes 6 and 8 change, into the version and variant ranges |
| Qprx.Generator.GenerateUuid | advanced/client.py:81-86 | The UUID is the text of the fixed-up sixteen drawn bytes, and the generator takes sixteen steps |
| Uuid.HexBytesAt | advanced/client.py:85 | Byte `k` is rendered at characters `2k` and `2k + 1` as two lowercase hex digits |
| Uuid.Layout | advanced/client.py:85-86 | 36 characters, hyphens at 8, 13, 18 and 23, '4' at 14, one of `89ab` at 19, lowercase hex elsewhere (RFC 4122, section 4.4) |
| Uuid.ParseText | advanced/client.py:85-86 | The text determines the bytes: parsing it back gives the sixteen bytes |
| Tour.Rev | TruePathTCPUP/server.py:201 | `s[::-1]`: same length, position `t` holds position `len - 1 - t` |
| Tour.Swap | test/nobruteforcing.py:89-91 | `two_opt_swap(path, i, k)` has the same length, reverses `[i..k]` and leaves every other position unchanged |
| Tour.SwapMultiset | test/nobruteforcing.py:89-91 | A reversal only rearranges the cities |
| Tour.RevMultiset | TruePathTCPUP/server.py:201 | Reversal keeps the multiset of cities |
| Tour.CycleCostIsWrapSum | server.py:24-25 | `total_distance` written with `path[(i + 1) % len(path)]` is the length of the path read as a cycle |
| Tour.ClosedTotal | server.py:24-25 | On a closed path (last equals first) the total is the tour's cycle length plus the self edge `d(t[0], t[0])`, the distance the memo gives the start paired with itself |
| Tour.OpenCostAgree | TruePathTCPUP/server.py:136 | Two distance functions that agree on every pair of a path's cities give it the same open length |
| Tour.CycleCostAgree | TruePathTCPUP/server.py:136 | Two distance functions that agree on every pair of a path's cities give it the same cycle length: `total_distance` depends only on the distances between the path's cities |
| Tour.OpenRev | server.py:86 | Under a symmetric distance a reversed stretch has the same open length |
| Tour.WrapIndex | advanced/server.py:195 | `(j + 1) % n` is `j + 1` unless `j` is the last index |
| Tour.TwoOptDelta | server.py:82-86 | Under a symmetric distance, reversing `[i..j]` changes the cycle length by exactly the four-edge difference |
| Tour.DistinctNamesCount | TruePathTCPUP/server.py:173 | Names are unique exactly when there are as many names as cities |
| Morton.Scaled | TruePathTCPUP/server.py:145-146 | `int(v * 10000)` truncates toward zero, for either sign |
| Morton.SpreadBits | TruePathTCPUP/server.py:142-143 | `spread_bits` on the low 32 bits with `&` binding tighter than bitwise or, always in `[0, 2^32)` |
| Morton.Interleave | TruePathTCPUP/server.py:144 | The Morton key lies in `[0, 2^33)` |
| Morton.SpreadOfTwo | TruePathTCPUP/server.py:143 | `spread_bits` is not a textbook spread: 2 maps to 6 |
| Morton.SortPermutation | TruePathTCPUP/server.py:159 | `sorted(cities, key=morton_order)` is a permutation of `cities` |
| Morton.SortSorted | TruePathTCPUP/server.py:159 | The result is non-decreasing by key |
| Morton.SortStable | TruePathTCPUP/server.py:159 | Cities with equal keys keep their request order |
| Morton.MortonSorted | TruePathTCPUP/server.py:159 | The sorted list has the request's length |
| Memo.KeyDeterminesNames | TruePathTCPUP/server.py:125 | Two calls share a `frozenset` key exactly when they name the same two cities, in either order |
| Memo.KeySymmetric | TruePathTCPUP/server.py:125 | `frozenset((a, b))` does not depend on the order |
| Memo.Remember | TruePathTCPUP/server.py:126-128 | After a call the key is present with the stored-or-computed value, no entry is removed or changed, and only that key may be new |
| Memo.RememberedByName | TruePathTCPUP/server.py:126-128 | A pair is computed at most once: a second call with the same names returns the first value and leaves the memo as it was |
| Memo.RawSymmetric | TruePathTCPUP/server.py:132-133 | `math.hypot` of the coordinate differences does not depend on the order of the two cities, since it only sees their magnitudes |
| Memo.EffSymmetric | TruePathTCPUP/server.py:123-133 | `calculate_distance(a, b) == calculate_distance(b, a)` for any memo state |
| Memo.EffectiveSymmetric | TruePathTCPUP/server.py:123-133 | The distance any memo state gives is symmetric |
| Memo.DistanceMemo.constructor | TruePathTCPUP/server.py:120 | The memo starts empty |
| Memo.DistanceMemo.CalculateDistance | TruePathTCPUP/server.py:124-133 | Returns the stored value if present, else `hypot` of the coordinate differences, and records it. Both orders then read the same entry |
| Memo.SettledCall | test/TSPhashing.py:149-150 | After the warm-up, a call for two request cities answers as the warmed dictionary and keeps the memo settled |
| Memo.CalculateSettled | advanced/server.py:195-196 | A call during the solve phase returns the warmed distance |
| Memo.GrownByCall | TruePathTCPUP/server.py:126-128 | A further call for a pair of request cities keeps every earlier entry and adds at most that pair's raw distance |
| Memo.GrownByTrans | TruePathTCPUP/server.py:126-128 | Two runs of such calls compose into one |
| Memo.FreshIsRaw | TruePathTCPUP/server.py:120-133 | Grown from an empty dictionary by calls for a request with unique names, every lookup for two request cities returns `math.hypot` of their differences: no stored entry can belong to other cities |
| Memo.FreshCycleCost | TruePathTCPUP/server.py:120-133 | Under the same conditions the memoised length of a cycle through request cities is its `math.hypot` length |
| Memo.FreshSelfEdge | advanced/server.py:149-156 | From an empty memo warmed over a request with unique names, a city paired with itself has length `hypot(0, 0)`, so zero for `math.hypot` |
| Memo.SharedNameSelfEdge | advanced/server.py:153-154 | When two different request cities share a name, the warm-up stores that name's key, and a city paired with itself is answered with the namesakes' stored distance |
| Memo.WarmRow | advanced/server.py:153-154 | One row `s` of the comprehension: after it every unequal city of the request has its pair with `cities[s]` stored; earlier rows stay stored; the memo only grows by raw distances of request pairs |
| Memo.WarmUp | advanced/server.py:153-154 | The unused `distances` comprehension leaves an entry for every pair of unequal cities, keeps every older entry unchanged, and adds only entries that are `math.hypot` of a pair of unequal request cities under their names |
| Matrix.CityIndices | TruePathTCPUP/server.py:160 | `city_indices` maps each name to a position holding it, the last such position (later ones overwrite) |
| Matrix.CityIndicesDistinct | TruePathTCPUP/server.py:160 | With unique names, the index of the city at position `i` is `i` |
| Matrix.FillRow | TruePathTCPUP/server.py:154-156 | Row `i` keeps its diagonal and off it holds the memo's value for request cities `i` and `j`; the memo keeps every older entry and adds only `math.hypot` of request cities at two different positions |
| Matrix.FillMatrix | TruePathTCPUP/server.py:151-156 | `distance_matrix` is N×N, zero on the diagonal, and holds the memo value for request positions elsewhere; the memo keeps every older entry and adds only `math.hypot` of request cities at two different positions |
| Matrix.FreshMatrixIsRaw | TruePathTCPUP/server.py:151-156 | Filled from an empty memo for a request with unique names, every entry off the diagonal is `math.hypot` of the coordinate differences of the request cities at those positions |
| Matrix.MatrixSymmetric | test/nobruteforcing.py:40-45 | The filled matrix is symmetric |
| Matrix.MatrixDistanceSymmetric | TruePathTCPUP/server.py:179 | Reading a symmetric matrix through `city_indices` gives a symmetric distance |
| Matrix.MatrixReadsRequestOrder | TruePathTCPUP/server.py:179 | A read for sorted cities `a` and `b` returns the memo value of the REQUEST cities at their Morton positions, not of `a` and `b` |
| Construct.UnvisitedMembers | TruePathTCPUP/server.py:176-177 | The scan candidates are exactly the cities whose name is not yet visited, in Morton order |
| Construct.FirstMinIndex | advanced/server.py:169-171 | The index of a minimum, with every earlier candidate strictly farther: `min` returns the first minimum |
| Construct.NearestChoice | advanced/server.py:169-173 | A round finds nothing exactly when every name is visited. Otherwise it picks an unvisited city no farther than any other |
| Construct.NearestSnoc | TruePathTCPUP/server.py:176-183 | The strict-`<` scan: a later candidate replaces the best only when strictly closer |
| Construct.FirstMinAgree | advanced/server.py:170 | Two distances that agree from the current city pick the same first minimum |
| Construct.ScanNearest | TruePathTCPUP/server.py:174-183 | The scan over `cities_sorted` against infinity returns the first nearest unvisited city and its index |
| Construct.FirstRound | TruePathTCPUP/server.py:166-170 | The path starts as `[cities_sorted[0]]` with that name visited |
| Construct.Extend | TruePathTCPUP/server.py:188-191 | Each appended city carries a new name, so `visited` grows by one |
| Construct.Exhausted | TruePathTCPUP/server.py:173 | Once as many names are visited as there are cities, no unvisited name is left |
| Construct.BuildByMatrix | TruePathTCPUP/server.py:166-191 | The while loop builds the nearest-neighbour tour of the matrix distance, stopping at `break` or when `visited` is full |
| Construct.NearestTourNames | TruePathTCPUP/server.py:166-191 | A built tour takes each name once, uses request cities, and visits every name |
| Construct.CoverPermutation | TruePathTCPUP/server.py:166-191 | With unique names, such a path is a permutation of the list |
| Construct.NearestTourPermutation | TruePathTCPUP/server.py:166-191 | With unique names the tour is a permutation of the sorted list |
| Construct.Candidates | advanced/server.py:169 | The generator yields exactly the sorted cities whose name is still in `unvisited` |
| Construct.CandidatesAreUnvisited | advanced/server.py:163-169 | Filtering on `unvisited` is filtering out the visited names |
| Construct.MinByDistance | advanced/server.py:169-171 | `min(..., default=None)` is `None` exactly on an empty generator |
| Construct.MinIsNearest | advanced/server.py:169-171 | `min` with the memo key picks the same city as the nearest-neighbour round |
| Construct.SettledAgree | advanced/server.py:170 | The key function reads the warmed distances |
| Construct.Remaining | advanced/server.py:168 | `discard(current)` leaves exactly the names not on the path, one fewer |
| Construct.Advance | advanced/server.py:175-176 | After appending the closest city, `unvisited` is the names not on the path plus the new current |
| Construct.BuildByMin | advanced/server.py:163-176 | The `while unvisited` loop builds the nearest-neighbour tour of the warmed memo distance |
| TwoOpt.TotalIsCycle | TruePathTCPUP/server.py:197-198 | `calculate_total_distance` is the cycle length of the first `num_cities` entries |
| TwoOpt.GainIsShortening | advanced/server.py:194-198 | Under a symmetric distance a reversal shortens the cycle by exactly its gain, and the test accepts exactly the shortening moves |
| TwoOpt.CopyMatchesFourEdge | TruePathTCPUP/server.py:211-213 | Recomputing the total after a swap is the four-edge difference on the first `num_cities` entries |
| TwoOpt.SwapRearranged | TruePathTCPUP/server.py:209-211 | A move with `1 <= i < k < span` keeps the same cities, index 0 and every index from the span on |
| TwoOpt.CopyRow | TruePathTCPUP/server.py:210-216 | `best_distance` equals the recomputed total of `path`, every accepted swap lowers it, and a row with no acceptance found no better swap |
| TwoOpt.CopySweep | TruePathTCPUP/server.py:209-216 | A pass keeps those facts, and a pass without improvement leaves a path no swap improves |
| TwoOpt.CopyTwoOpt | TruePathTCPUP/server.py:204-216 | The final total is the path's total and no more than the initial one, and on convergence the path is 2-opt optimal |
| TwoOpt.FourEdgeTest | advanced/server.py:194-197 | The four `calculate_distance` comparison is true exactly when the move's gain is positive |
| TwoOpt.AcceptMove | advanced/server.py:198 | An accepted in-place reversal keeps the rearrangement and strictly shortens the cycle |
| TwoOpt.FourEdgeOptimalIsLocal | advanced/server.py:190-199 | A path on which the test rejects every move has no shortening reversal |
| TwoOpt.InPlaceRow | advanced/server.py:193-199 | Each accepted reversal is applied at once and shortens the cycle; a row with none has every move rejected |
| TwoOpt.InPlaceSweep | advanced/server.py:192-199 | A pass rearranges within the span, lowers the cycle length if it moved anything, and otherwise leaves a four-edge-optimal path |
| TwoOpt.InPlaceTwoOpt | advanced/server.py:188-199 | `while improved` ends with the same cities, index 0 and the closing copy fixed, a cycle length no larger, and four-edge optimality on convergence |
| Interleaved.RearrangedNames | test/TSPhashing.py:179 | An in-construction reversal keeps the names unique and the same |
| Interleaved.AllVisited | test/TSPhashing.py:163-169 | A round finding nothing means every name is on the path |
| Interleaved.BuildInterleaved | test/TSPhashing.py:159-179 | The path starts at `cities_sorted[0]`, holds each name once and all names. With unique names it is a permutation of the list |
| Solver.PathNames | TruePathTCPUP/server.py:226 | `[city['name'] for city in path]` |
| Solver.TotalDistance | advanced/server.py:136-137 | `total_distance` through the memo is the cycle length under the warmed distance |
| Solver.SortedFacts | TruePathTCPUP/server.py:159 | Sorting keeps the cities, the names and whether names are unique |
| Solver.TourLength | TruePathTCPUP/server.py:166-191 | A built tour has one city per distinct name |
| Solver.ClosedPermutation | TruePathTCPUP/server.py:194 | With unique names the closed and optimised path has N+1 entries, starts and ends at `cities_sorted[0]`, and its first N are a permutation of the input |
| Solver.CloseInterleaved | test/TSPhashing.py:182 | The same closing facts for the interleaved construction |
| Solver.SolveByMatrix | TruePathTCPUP/server.py:149-231 | Ensures `MatrixOutcome`. The memo grows only by raw distances of request pairs and keeps its entries. The matrix is the filled one, and from an empty memo with unique names it holds `math.hypot` values. The call fails with `IndexError` exactly on an empty request or one with too few distinct names for `calculate_total_distance`. Otherwise the result reports the 2-opt path, its names and `best_distance` under the matrix read through `city_indices`; the path rearranges the closed nearest-neighbour tour and is no longer than it; it is 2-opt optimal when the loop converged; with unique names it is a permutation tour from `cities_sorted[0]`. test/nobruteforcing.py:32-120 is the same function |
| Solver.SolveInPlace | advanced/server.py:149-217 | Ensures `InPlaceOutcome`. The warmed memo keeps the old entries and adds only raw distances of request pairs; later calls add only a city paired with itself. The call fails exactly on an empty request. Otherwise `initial_path == optimized_path`, and `optimized_distance <= initial_distance`, which is the tour's cycle length plus the self edge `d(tour[0], tour[0])` (zero from an empty memo with unique names when `hypot(0, 0) == 0`, by `Memo.FreshSelfEdge`; the stored distance of the namesake pair when names repeat, by `Memo.SharedNameSelfEdge`). The final path rearranges the nearest-neighbour tour and has no improving move left when 2-opt converged. With unique names it is the permutation tour, and from an empty memo both distances are `math.hypot` tour lengths. server.py:37-101 is the same function with `withArray` false |
| Solver.SolveInterleaved | test/TSPhashing.py:145-196 | Ensures `InterleavedOutcome`. The warm-up is as in `SolveInPlace`. The call fails exactly on an empty request. Otherwise the report is the closed interleaved tour and its memoised length: distinct names, all names, only request cities, first equals last, a permutation under unique names, and from an empty memo with unique names a `math.hypot` length |
| Cache.AfterStoreBounded | TruePathTCPUP/server.py:255-259 | Storing keeps keys distinct and the size within the limit, with the new key present |
| Cache.AfterStoreEvictsOldest | TruePathTCPUP/server.py:258-259 | Storing a new key in a full cache removes exactly the oldest key |
| Cache.RequestCache.constructor | TruePathTCPUP/server.py:111 | The cache starts empty |
| Cache.RequestCache.Put | TruePathTCPUP/server.py:255-259 | The key holds the new result, so a later `Get` of it returns that result; every other key still present answers `Get` as before; the key order is insertion order with the oldest evicted past the limit |
| Server.CachedHashAnsweredFirst | TruePathTCPUP/server.py:243-244 | A cached hash is answered with the stored result whatever data comes with it |
| Server.VerifiedExactly | TruePathTCPUP/server.py:247-251 | An uncached request is admitted exactly when its hash is the digest of the re-encoded cities, and rejected otherwise |
| Server.EnvelopeAccepted | test/TSPhashing.py:284-289 | The client's envelope is never rejected: it is answered from the cache or admitted under its own hash |
| Server.ProcessVerified | TruePathTCPUP/server.py:236-263 | Decoding errors, missing keys and a hash mismatch give their error, and a cached hash its stored result, all before solving and with the memo and cache unchanged. An admitted request is answered with exactly the solver's report, or its failure as the error, and the solver's outcome holds. A solved request is stored under the received hash, with FIFO eviction past `CACHE_SIZE_LIMIT` = 2000. test/TSPhashing.py:198-225 is the same function with the interleaved solver |
| Server.ProcessRaw | advanced/server.py:222-240 | Keyed by the digest of the whole text with no verification. A hit returns the stored result and leaves the memo unchanged. A decoding failure gives its error. A decoded list is answered with exactly `SolveInPlace`'s report, so the only error after decoding is the empty list, and its outcome holds. A failure stores nothing, and a success is stored with FIFO eviction past `CACHE_SIZE_LIMIT` = 1000 |

## Left out

- Sockets, `select`, the UDP and TCP loops and the 4096-byte buffers are not modelled. `process_request` is the function under them.
- client.py and the socket part of advanced/client.py are not modelled: they are demo network clients.
- The `ratelimit` decorators are not modelled: they block on wall-clock time in a foreign library.
- `time.time()`:
  - the timing fields of the results are dropped;
  - the clock readings used for entropy are parameters (`now`, `clock`).
- Floating point:
  - `math.hypot` is an uninterpreted parameter applied to absolute coordinate differences;
  - sums are exact reals;
  - `round` is not modelled;
  - `float('inf')` in the strict-`<` scan is not modelled, because every distance is a finite real.
- `json.loads`/`json.dumps` and UTF-8 decoding are parameters: `decoded`/`decode` and `dumps`.
- The order of `python dict` keys in `json.dumps` is part of that parameter.
- Checksum.XorCipher: works on code points; a result past U+10FFFF is the error `chr` raises. Surrogate code points are not distinguished.
- TwoOpt.CopyTwoOpt: `while improved` is bounded by `fuel` passes. `converged` says the last pass found nothing; termination from strict decrease is not proved.
- TwoOpt.InPlaceTwoOpt: the same fuel bound.
- Solver.SolveByMatrix: the same fuel bound.
- Solver.SolveInPlace: the same fuel bound.
- In-place list updates (`path[i:j+1] = reversed(...)`, `append`, `discard`) are modelled as reassignment of `seq` values. No aliasing of these lists exists in the source.
- Server.ProcessRaw: the source lets exceptions propagate out of `process_request`. The model returns them as `Error` with the cache unchanged, which is the state the source leaves.
- Server.ProcessVerified: `str(e)` is modelled only for the exceptions the modelled code raises. Others, such as malformed city dictionaries or a non-list `data`, are excluded because a city is a typed value.
- Server.ProcessVerified: `hash` is typed as a string. A JSON number there is never in the cache and never equals the digest, so the source answers `Hash verification failed`; a JSON list raises `unhashable type: 'list'` at the cache lookup. Neither case is modelled.
- Morton.Scaled: `int(x * 10000)` is taken on exact reals. The source rounds the float product first, so a coordinate whose product lies just below an integer can scale one higher than modelled.
- `QPRx2025.__init__`'s `LCG_PARAMS` lookups with explicit `a`, `c`, `m` arguments are not modelled: every caller uses the defaults.
