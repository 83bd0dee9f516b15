/** `process_request`, in its two forms, and the request envelope the
    clients build.

    - Verifying (TruePathTCPUP/server.py with the matrix solver,
      test/TSPhashing.py with the interleaved solver): the request is
      `{'data': cities, 'hash': h}`; a cached `h` is answered before any
      check; otherwise `h` must equal `custom_hash(json.dumps(cities))`.
      Every exception becomes `{"error": str(e)}`.
    - Raw (advanced/server.py): the key is `custom_hash` of the whole
      request text and nothing is verified.

    JSON decoding and encoding are parameters: `decoded` is what
    `json.loads` made of the request (or the message it raised), `dumps`
    is `json.dumps` on a list of cities. */
module Server {
  import opened Wrappers
  import opened Tour
  import opened Memo
  import opened Checksum
  import opened Solver
  import opened Cache

  /** The decoded request object; a key it lacks is `None`. */
  datatype Request = Request(data: Option<seq<City>>, hash: Option<string>)

  /** What `process_request` returns: a result dictionary or `{"error": ...}`. */
  datatype Response = Solved(report: Report) | Error(message: string)

  datatype SolverKind = MatrixSolver | InterleavedSolver

  const VerifiedCacheLimit: nat := 2000
  const RawCacheLimit: nat := 1000
  const HashMismatch := "Hash verification failed"

  /** The outcome of a verifying request up to the point where it is solved. */
  datatype Gate = Reject(message: string) | Hit(report: Report) | Admit(key: string, cities: seq<City>)

  /** The checks of the verifying `process_request` in source order:
      decoding, the `'data'` and `'hash'` lookups (a missing key raises
      `KeyError`, whose text is the quoted key), the cache lookup, then
      the hash comparison. */
  function Screen(decoded: Result<Request, string>, cached: map<string, Report>,
                  dumps: seq<City> -> string): Gate
  {
    match decoded
    case Failure(e) => Reject(e)
    case Success(request) =>
      if request.data.None? then Reject("'data'")
      else if request.hash.None? then Reject("'hash'")
      else if request.hash.value in cached then Hit(cached[request.hash.value])
      else if request.hash.value != DigestOf(dumps(request.data.value) + "") then Reject(HashMismatch)
      else Admit(request.hash.value, request.data.value)
  }

  /** A cached hash is answered whatever data comes with it: the lookup
      happens before verification. */
  lemma CachedHashAnsweredFirst(cities: seq<City>, h: string, cached: map<string, Report>,
                                dumps: seq<City> -> string)
    requires h in cached
    ensures Screen(Success(Request(Some(cities), Some(h))), cached, dumps) == Hit(cached[h])
  {
  }

  /** An uncached request is admitted exactly when its hash is the digest of
      the re-encoded cities. */
  lemma VerifiedExactly(cities: seq<City>, h: string, cached: map<string, Report>,
                        dumps: seq<City> -> string)
    requires h !in cached
    ensures Screen(Success(Request(Some(cities), Some(h))), cached, dumps).Admit?
            <==> h == DigestOf(dumps(cities) + "")
    ensures Screen(Success(Request(Some(cities), Some(h))), cached, dumps).Reject?
            <==> h != DigestOf(dumps(cities) + "")
  {
  }

  /** advanced/client.py and the demo of test/TSPhashing.py:
      `{'data': cities, 'hash': custom_hash(json.dumps(cities))}`. */
  function Envelope(cities: seq<City>, dumps: seq<City> -> string): Request {
    Request(Some(cities), Some(DigestOf(dumps(cities) + "")))
  }

  /** A client envelope that the server decodes back into itself is never
      rejected: it is answered from the cache or admitted under its own
      hash with its own cities. */
  lemma EnvelopeAccepted(cities: seq<City>, cached: map<string, Report>, dumps: seq<City> -> string,
                         decoded: Result<Request, string>)
    requires decoded == Success(Envelope(cities, dumps))
    ensures var h := DigestOf(dumps(cities) + "");
      Screen(decoded, cached, dumps) == if h in cached then Hit(cached[h]) else Admit(h, cities)
  {
  }

  /** The verifying `process_request`. An admitted request is answered
      with exactly what the solver returns: its report, or its failure as
      `{"error": ...}`. The ghost results are the solver's. */
  method ProcessVerified(cache: RequestCache<Report>, memo: DistanceMemo, decoded: Result<Request, string>,
                         dumps: seq<City> -> string, kind: SolverKind, fuel: nat)
    returns (response: Response, ghost solved: Result<Report, string>, ghost matrix: seq<seq<real>>,
             ghost tour: seq<City>, ghost final: seq<City>, ghost converged: bool,
             ghost snapshot: map<MemoKey, real>)
    requires cache.Valid() && cache.limit == VerifiedCacheLimit
    modifies cache, memo
    ensures cache.Valid()
    ensures var gate := Screen(decoded, old(cache.entries), dumps);
      && (gate.Reject? ==> response == Error(gate.message))
      && (gate.Hit? ==> response == Solved(gate.report))
      && (!gate.Admit? ==> memo.memo == old(memo.memo))
      && (!gate.Admit? || response.Error? ==>
            cache.order == old(cache.order) && cache.entries == old(cache.entries))
      && (gate.Admit? ==>
            && response == (if solved.Failure? then Error(solved.error) else Solved(solved.value))
            && (kind.MatrixSolver? ==>
                  MatrixOutcome(old(memo.memo), memo.memo, memo.hypot, gate.cities, solved,
                                matrix, tour, final, converged))
            && (kind.InterleavedSolver? ==>
                  InterleavedOutcome(old(memo.memo), memo.memo, memo.hypot, gate.cities, solved,
                                     snapshot, final)))
      && (gate.Admit? && response.Solved? ==>
            && cache.order == AfterStore(old(cache.order), gate.key, cache.limit)
            && gate.key in cache.entries && cache.entries[gate.key] == response.report
            && (forall k :: k in cache.entries && k != gate.key ==>
                  k in old(cache.entries) && cache.entries[k] == old(cache.entries)[k]))
  {
    solved, matrix, tour, final, converged, snapshot := Failure(""), [], [], [], false, map[];
    if decoded.Failure? {
      response := Error(decoded.error);
      return;
    }
    var request := decoded.value;
    if request.data.None? {
      response := Error("'data'");
      return;
    }
    if request.hash.None? {
      response := Error("'hash'");
      return;
    }
    var cities, receivedHash := request.data.value, request.hash.value;
    var hit := cache.Get(receivedHash);
    if hit.Some? {
      response := Solved(hit.value);
      return;
    }
    var calculated := CustomHash(dumps(cities), "", None);
    if receivedHash != calculated.digest {
      response := Error(HashMismatch);
      return;
    }
    var result: Result<Report, string>;
    match kind {
      case MatrixSolver =>
        result, matrix, tour, final, converged := SolveByMatrix(memo, cities, fuel);
      case InterleavedSolver =>
        result, snapshot, final := SolveInterleaved(memo, cities);
    }
    solved := result;
    if result.Failure? {
      response := Error(result.error);
      return;
    }
    cache.Put(receivedHash, result.value);
    response := Solved(result.value);
  }

  /** The raw `process_request` of advanced/server.py: keyed by the digest of
      the whole request text; `decode` is `json.loads` on that text. A
      decoded request is answered with exactly what the solver returns, so
      the only error after decoding is the one of an empty list. A failure
      (which the source lets propagate) stores nothing. */
  method ProcessRaw(cache: RequestCache<Report>, memo: DistanceMemo, text: string,
                    decode: string -> Result<seq<City>, string>, fuel: nat)
    returns (response: Response, ghost solved: Result<Report, string>, ghost snapshot: map<MemoKey, real>,
             ghost tour: seq<City>, ghost final: seq<City>, ghost converged: bool)
    requires cache.Valid() && cache.limit == RawCacheLimit
    modifies cache, memo
    ensures cache.Valid()
    ensures var key := DigestOf(text + "");
      && (key in old(cache.entries) ==> response == Solved(old(cache.entries)[key]))
      && (key in old(cache.entries) || decode(text).Failure? ==> memo.memo == old(memo.memo))
      && (key in old(cache.entries) || response.Error? ==>
            cache.order == old(cache.order) && cache.entries == old(cache.entries))
      && (key !in old(cache.entries) && decode(text).Failure? ==> response == Error(decode(text).error))
      && (key !in old(cache.entries) && decode(text).Success? ==>
            && response == (if solved.Failure? then Error(solved.error) else Solved(solved.value))
            && InPlaceOutcome(old(memo.memo), memo.memo, memo.hypot, decode(text).value, true, solved,
                              snapshot, tour, final, converged))
      && (key !in old(cache.entries) && response.Solved? ==>
            && cache.order == AfterStore(old(cache.order), key, cache.limit)
            && key in cache.entries && cache.entries[key] == response.report
            && (forall k :: k in cache.entries && k != key ==>
                  k in old(cache.entries) && cache.entries[k] == old(cache.entries)[k]))
  {
    solved, snapshot, tour, final, converged := Failure(""), map[], [], [], false;
    var hashed := CustomHash(text, "", None);
    var key := hashed.digest;
    var hit := cache.Get(key);
    if hit.Some? {
      response := Solved(hit.value);
      return;
    }
    var cities := decode(text);
    if cities.Failure? {
      response := Error(cities.error);
      return;
    }
    var result;
    result, snapshot, tour, final, converged := SolveInPlace(memo, cities.value, true, fuel);
    solved := result;
    if result.Failure? {
      response := Error(result.error);
      return;
    }
    cache.Put(key, result.value);
    response := Solved(result.value);
  }
}
