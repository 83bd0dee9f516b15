/** The pseudo-random half of the `QPRx2025` toolkit: entropy mixing, the
    linear congruential step, the Mersenne-Twister extractor that is re-seeded
    from the generator's seed on every call, the bounded choice
    `quantum_polls_relay` and its users, and the version-4 UUID of section 4.4
    of RFC 4122. Wall-clock readings (`int(time.time() * 1000)`) are inputs. */
module Qprx {
  import opened Wrappers
  import opened Bits
  import Checksum
  import Uuid

  const Characters: string := "ABCDEFGHIJKLMNOPQRSTUVWXYZabcdefghijklmnopqrstuvwxyz0123456789"

  /** The character that a relay draw over `len(CHARACTERS)` picks, right after
      the `lcg` step that produced `seed`. */
  function DrawnCharacter(seed: nat): (c: char)
    requires seed < LcgM
    ensures c in Characters
  {
    Characters[RelayValue(seed, |Characters|)]
  }

  /** The first `k` characters of `generate_characters`, each drawn after one
      more `lcg` step, the `j`-th step reading `clock(j)`. */
  function Drawn(s: LcgState, clock: nat -> nat, k: nat): (r: string)
    requires s.seed < LcgM
    ensures |r| == k
    ensures forall i :: 0 <= i < k ==> r[i] in Characters
  {
    if k == 0 then [] else Drawn(s, clock, k - 1) + [DrawnCharacter(Advance(s, clock, k).seed)]
  }

  /** The modulus of `LCG_PARAMS` (2^32); the multiplier 1664525 and the
      increment 1013904223 are written where they are used. */
  const LcgM: nat := 4294967296

  // ---------------------------------------------------------------------------
  // mix_entropy

  /** Xor-ing `v` in at both ends of a chain cancels out. */
  lemma XorOuterCancels(v: nat, p: nat, q: nat, r: nat)
    ensures Xor(Xor(Xor(Xor(v, p), q), r), v) == Xor(Xor(p, q), r)
  {
    XorAssociates(v, p, q);
    XorAssociates(v, Xor(p, q), r);
    XorCommutes(v, Xor(Xor(p, q), r));
    XorAssociates(Xor(Xor(p, q), r), v, v);
    XorSelf(v);
    XorZero(Xor(Xor(p, q), r));
  }

  /** `value ^ (value >> 32) ^ (value >> 16) ^ (value >> 8) ^ value`, which is
      the xor of the three shifted copies only: the two `value` terms cancel. */
  function MixEntropy(v: nat): (r: nat)
    ensures r == Xor(Xor(v / 0x1_0000_0000, v / 0x1_0000), v / 0x100)
  {
    XorOuterCancels(v, v / 0x1_0000_0000, v / 0x1_0000, v / 0x100);
    Xor(Xor(Xor(Xor(v, v / 0x1_0000_0000), v / 0x1_0000), v / 0x100), v)
  }

  // ---------------------------------------------------------------------------
  // lcg

  /** The new seed `(a * seed + c + entropy) % m`: always below 2^32, whatever
      the seed and the entropy. */
  function LcgNext(seed: nat, entropy: nat): (r: nat)
    ensures r < LcgM
  {
    (1664525 * seed + 1013904223 + entropy) % 4294967296
  }

  /** The generator's two fields, as a value. */
  datatype LcgState = LcgState(seed: nat, entropy: nat)

  /** One `lcg()` call that reads `now` from the clock. */
  function LcgStep(s: LcgState, now: nat): (r: LcgState)
    ensures r.seed < LcgM
  {
    var seed := LcgNext(s.seed, s.entropy);
    LcgState(seed, MixEntropy(seed + now))
  }

  /** The state after `k` successive `lcg()` calls, the `j`-th reading `clock(j)`. */
  function Advance(s: LcgState, clock: nat -> nat, k: nat): (r: LcgState)
    ensures s.seed < LcgM ==> r.seed < LcgM
  {
    if k == 0 then s else LcgStep(Advance(s, clock, k - 1), clock(k - 1))
  }

  // ---------------------------------------------------------------------------
  // mersenne_twister

  /** `MT[0] = seed`: the seed as a 32-bit word. */
  function SeedWord(seed: nat): bv32
    requires seed < LcgM
  {
    seed as bv32
  }

  /** One step of `initialize`: `(0x6c078965 * (p ^ (p >> 30)) + i) & 0xffffffff`. */
  function InitNext(prev: bv32, i: nat): bv32
    requires i < 624
  {
    0x6c078965 * (prev ^ (prev >> 30)) + (i as bv32)
  }

  /** Word `k` of `MT` after `initialize(seed)`. */
  function InitWord(seed: bv32, k: nat): bv32
    requires k < 624
  {
    if k == 0 then seed else InitNext(InitWord(seed, k - 1), k)
  }

  /** The whole table after `initialize(seed)`. */
  function InitState(seed: bv32): (s: seq<bv32>)
    ensures |s| == 624 && s[0] == seed
  {
    seq(624, k requires 0 <= k < 624 => InitWord(seed, k))
  }

  /** Round `i` of `generate_numbers`, which reads the words as they stand,
      some of them already regenerated by earlier rounds. The sum of the two
      masked words has disjoint bits, so it never leaves 32 bits. */
  function TwistAt(mt: seq<bv32>, i: nat): bv32
    requires |mt| == 624 && i < 624
  {
    var y := (mt[i] & 0x8000_0000) + (mt[(i + 1) % 624] & 0x7fff_ffff);
    var w := mt[(i + 397) % 624] ^ (y >> 1);
    if y % 2 != 0 then w ^ 0x9908_b0df else w
  }

  /** `MT` after the first `n` rounds of `generate_numbers`. */
  function Twisted(mt: seq<bv32>, n: nat): (r: seq<bv32>)
    requires |mt| == 624 && n <= 624
    ensures |r| == 624
  {
    if n == 0 then mt
    else
      var p := Twisted(mt, n - 1);
      p[n - 1 := TwistAt(p, n - 1)]
  }

  /** The tempering of `extract_number`; the masks keep every step in 32 bits. */
  function Temper(y: bv32): bv32 {
    var y1 := y ^ (y >> 11);
    var y2 := y1 ^ ((y1 << 7) & 0x9d2c_5680);
    var y3 := y2 ^ ((y2 << 15) & 0xefc6_0000);
    y3 ^ (y3 >> 18)
  }

  /** What `mersenne_twister()` returns for a given seed: `index` is always 0,
      so the table is regenerated and its first word tempered. */
  function MtOutput(seed: bv32): bv32 {
    Temper(Twisted(InitState(seed), 624)[0])
  }

  /** Rounds after round `k` never write word `k`. */
  lemma {:induction false} TwistKeepsEarlierWords(mt: seq<bv32>, n: nat, k: nat)
    requires |mt| == 624 && k < n <= 624
    ensures Twisted(mt, n)[k] == Twisted(mt, k + 1)[k]
  {
    if n > k + 1 {
      TwistKeepsEarlierWords(mt, n - 1, k);
    }
  }

  /** Only the first regenerated word is ever used: the other 623 rounds of
      `generate_numbers` do not influence the output. */
  lemma MtOutputUsesFirstRoundOnly(seed: bv32)
    ensures MtOutput(seed) == Temper(TwistAt(InitState(seed), 0))
  {
    var init := InitState(seed);
    TwistKeepsEarlierWords(init, 624, 0);
    assert Twisted(init, 1) == init[0 := TwistAt(init, 0)];
  }

  /** A `quantum_polls_relay(max_val)` value, drawn right after the `lcg` step
      that produced `seed`. */
  function RelayValue(seed: nat, maxVal: int): (v: nat)
    requires seed < LcgM && maxVal > 0
    ensures v < maxVal
  {
    Reduce(seed, MtOutput(SeedWord(seed)), maxVal)
  }

  /** `(lcg_value + mt_value) % 1000000 % max_val`. */
  function Reduce(lcgValue: nat, mtValue: bv32, maxVal: int): (v: nat)
    requires maxVal > 0
    ensures v < maxVal && v < 1000000
  {
    ((lcgValue + mtValue as int) % 1000000) % maxVal
  }

  /** `(mt + qpr) & 0xff` for non-negative operands. */
  function LowByte(mt: bv32, q: nat): Uuid.Byte {
    (mt as int + q) % 256
  }

  /** `(mt_value + qpr_value) & 0xff` on Python's unbounded integers is the
      sum modulo 256. */
  lemma LowByteIsMask(mt: bv32, q: nat)
    ensures LowByte(mt, q) == And(mt as int + q, 0xff)
  {
    assert Pow2(8) == 256;
    AndLowMask(mt as int + q, 8);
  }

  /** UUID fix-ups: the version nibble 4 into byte 6, keeping the low
      nibble ... */
  function SetVersion(b: Uuid.Byte): (r: Uuid.Byte)
    ensures 0x40 <= r <= 0x4f
    ensures r % 16 == b % 16
  {
    b % 16 + 0x40
  }

  /** ... which is the source's `(b & 0x0f) | 0x40` ... */
  lemma SetVersionIsMask(b: bv8)
    ensures SetVersion(b as int) == ((b & 0x0f) | 0x40) as int
  {
    MaskedOrIsSum16(b);
    MaskIsRemainder16(b);
    MaskedSumAsInt16(b);
  }

  lemma MaskedOrIsSum16(b: bv8)
    ensures (b & 0x0f) | 0x40 == (b & 0x0f) + 0x40
  {
  }

  lemma MaskIsRemainder16(b: bv8)
    ensures (b & 0x0f) as int == b as int % 16
  {
  }

  lemma MaskedSumAsInt16(b: bv8)
    ensures ((b & 0x0f) + 0x40) as int == (b & 0x0f) as int + 0x40
  {
  }

  /** ... and the variant bits 10 into byte 8, keeping the low six bits ... */
  function SetVariant(b: Uuid.Byte): (r: Uuid.Byte)
    ensures 0x80 <= r <= 0xbf
    ensures r % 64 == b % 64
  {
    b % 64 + 0x80
  }

  /** ... which is `(b & 0x3f) | 0x80`. */
  lemma SetVariantIsMask(b: bv8)
    ensures SetVariant(b as int) == ((b & 0x3f) | 0x80) as int
  {
    MaskedOrIsSum64(b);
    MaskIsRemainder64(b);
    MaskedSumAsInt64(b);
  }

  lemma MaskedOrIsSum64(b: bv8)
    ensures (b & 0x3f) | 0x80 == (b & 0x3f) + 0x80
  {
  }

  lemma MaskIsRemainder64(b: bv8)
    ensures (b & 0x3f) as int == b as int % 64
  {
  }

  lemma MaskedSumAsInt64(b: bv8)
    ensures ((b & 0x3f) + 0x80) as int == (b & 0x3f) as int + 0x80
  {
  }

  /** The first `k` raw bytes of `generate_uuid`: byte `j` is
      `mersenne_twister()` on the seed after `j` steps plus the relay draw
      `quantum_polls_relay(256)` after one more, masked to 8 bits. */
  function RawUuidBytes(s: LcgState, clock: nat -> nat, k: nat): (r: seq<Uuid.Byte>)
    requires s.seed < LcgM
    ensures |r| == k
  {
    if k == 0 then []
    else
      var before := Advance(s, clock, k - 1);
      var after := Advance(s, clock, k);
      RawUuidBytes(s, clock, k - 1) + [LowByte(MtOutput(SeedWord(before.seed)), RelayValue(after.seed, 256))]
  }

  /** The sixteen bytes after the fix-ups: version in byte 6, variant in byte 8,
      every other byte as drawn. */
  function FixUp(raw: seq<Uuid.Byte>): (r: seq<Uuid.Byte>)
    requires |raw| == 16
    ensures |r| == 16 && 0x40 <= r[6] <= 0x4f && 0x80 <= r[8] <= 0xbf
    ensures forall k :: 0 <= k < 16 && k != 6 && k != 8 ==> r[k] == raw[k]
  {
    raw[6 := SetVersion(raw[6])][8 := SetVariant(raw[8])]
  }

  /** `initialize(seed)` on a fresh table `MT = [0] * 624`. */
  method Initialize(seed: bv32) returns (mt: array<bv32>)
    ensures fresh(mt) && mt.Length == 624
    ensures mt[..] == InitState(seed)
  {
    mt := new bv32[624];
    mt[0] := seed;
    for i := 1 to 624
      invariant forall k :: 0 <= k < i ==> mt[k] == InitWord(seed, k)
    {
      mt[i] := InitNext(mt[i - 1], i);
    }
  }

  /** `generate_numbers()`: regenerates the table in place, word by word. */
  method GenerateNumbers(mt: array<bv32>)
    requires mt.Length == 624
    modifies mt
    ensures mt[..] == Twisted(old(mt[..]), 624)
  {
    ghost var init := mt[..];
    for i := 0 to 624
      invariant mt[..] == Twisted(init, i)
    {
      mt[i] := TwistAt(mt[..], i);
    }
  }

  class Generator {
    var seed: nat
    var entropy: nat

    /** The LCG keeps the seed below its modulus; the constructor's
        `seed % 1000000` is already far below it. */
    ghost predicate Valid()
      reads this
    {
      seed < LcgM
    }

    function State(): LcgState
      reads this
    {
      LcgState(seed, entropy)
    }

    /** `QPRx2025(seed)`, reading the clock once as `now`. */
    constructor (initialSeed: int, now: nat)
      ensures Valid()
      ensures seed == initialSeed % 1000000 && entropy == MixEntropy(now)
    {
      seed := initialSeed % 1000000;
      entropy := MixEntropy(now);
    }

    /** `lcg()` with its default parameters, reading the clock as `now`. */
    method Lcg(now: nat) returns (r: nat)
      modifies this
      ensures Valid()
      ensures State() == LcgStep(old(State()), now)
      ensures r == seed
    {
      seed := LcgNext(seed, entropy);
      entropy := MixEntropy(seed + now);
      r := seed;
    }

    /** `mersenne_twister()`: builds a fresh 624-word table from the seed,
        regenerates it and tempers word 0 (`index` starts at 0 on every call).
        Nothing of the generator changes. */
    method MersenneTwister() returns (y: bv32)
      requires Valid()
      ensures y == MtOutput(SeedWord(seed))
    {
      var mt := Initialize(SeedWord(seed));
      GenerateNumbers(mt);
      y := Temper(mt[0]);
    }
    /** `quantum_polls_relay(max_val)`: one `lcg()` step, then the twister on
        the new seed, reduced into `[0, max_val)`. */
    method QuantumPollsRelay(maxVal: int, now: nat) returns (r: Result<nat, string>)
      requires Valid()
      modifies this
      ensures Valid()
      ensures maxVal <= 0 ==>
        r == Failure("Invalid max value for QuantumPollsRelay") && State() == old(State())
      ensures maxVal > 0 ==>
        State() == LcgStep(old(State()), now) && r == Success(RelayValue(seed, maxVal))
    {
      if maxVal <= 0 {
        return Failure("Invalid max value for QuantumPollsRelay");
      }
      var lcgValue := Lcg(now);
      var mtValue := MersenneTwister();
      r := Success(Reduce(lcgValue, mtValue, maxVal));
    }

    /** `generate_characters(length)`: one relay draw per character. */
    method GenerateCharacters(length: int, clock: nat -> nat) returns (r: Result<string, string>)
      requires Valid()
      modifies this
      ensures Valid()
      ensures length <= 0 ==>
        r == Failure("Invalid length for generateCharacters") && State() == old(State())
      ensures length > 0 ==>
        State() == Advance(old(State()), clock, length) && r == Success(Drawn(old(State()), clock, length))
    {
      if length <= 0 {
        return Failure("Invalid length for generateCharacters");
      }
      ghost var s0 := State();
      var text := "";
      for k := 0 to length
        invariant Valid() && State() == Advance(s0, clock, k)
        invariant text == Drawn(s0, clock, k)
      {
        var v := QuantumPollsRelay(|Characters|, clock(k));
        text := text + [Characters[v.value]];
      }
      r := Success(text);
    }

    /** `the_options(options)`: a relay-chosen element of a non-empty list. */
    method TheOptions<T>(options: seq<T>, now: nat) returns (r: Result<T, string>)
      requires Valid()
      modifies this
      ensures Valid()
      ensures |options| == 0 ==> r == Failure("No options provided") && State() == old(State())
      ensures |options| > 0 ==>
        State() == LcgStep(old(State()), now) && r == Success(options[RelayValue(seed, |options|)])
      ensures r.Success? ==> r.value in options
    {
      if |options| == 0 {
        return Failure("No options provided");
      }
      var v := QuantumPollsRelay(|options|, now);
      r := Success(options[v.value]);
    }

    /** `the_rewarded(participants)`: the same choice with its own message. */
    method TheRewarded<T>(participants: seq<T>, now: nat) returns (r: Result<T, string>)
      requires Valid()
      modifies this
      ensures Valid()
      ensures |participants| == 0 ==> r == Failure("No participants provided") && State() == old(State())
      ensures |participants| > 0 ==>
        State() == LcgStep(old(State()), now) && r == Success(participants[RelayValue(seed, |participants|)])
      ensures r.Success? ==> r.value in participants
    {
      if |participants| == 0 {
        return Failure("No participants provided");
      }
      var v := QuantumPollsRelay(|participants|, now);
      r := Success(participants[v.value]);
    }

    /** The list comprehension of `generate_uuid`: sixteen raw bytes. */
    method DrawUuidBytes(clock: nat -> nat) returns (raw: seq<Uuid.Byte>)
      requires Valid()
      modifies this
      ensures Valid()
      ensures State() == Advance(old(State()), clock, 16)
      ensures raw == RawUuidBytes(old(State()), clock, 16)
    {
      ghost var s0 := State();
      raw := [];
      for k := 0 to 16
        invariant Valid() && State() == Advance(s0, clock, k)
        invariant raw == RawUuidBytes(s0, clock, k)
      {
        var mt := MersenneTwister();
        var q := QuantumPollsRelay(256, clock(k));
        raw := raw + [LowByte(mt, q.value)];
      }
    }

    /** `generate_uuid()`: the raw bytes, the two fix-ups written over bytes 6
        and 8 of the list, then the 8-4-4-4-12 rendering. */
    method GenerateUuid(clock: nat -> nat) returns (u: string)
      requires Valid()
      modifies this
      ensures Valid()
      ensures State() == Advance(old(State()), clock, 16)
      ensures u == Uuid.Text(FixUp(RawUuidBytes(old(State()), clock, 16)))
    {
      var bytes := DrawUuidBytes(clock);
      ghost var raw := bytes;
      bytes := bytes[6 := SetVersion(bytes[6])];
      bytes := bytes[8 := SetVariant(bytes[8])];
      assert bytes == FixUp(raw);
      u := Uuid.Text(bytes);
    }
  }
}
