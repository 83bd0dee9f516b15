/** The checksum half of the `QPRx2025` toolkit: the 32-bit FNV-1a hash behind
    `custom_hash` (its inner `hashing` and `verify_hash`), the eight-digit
    lowercase hex rendering of the digest, and `xor_cipher`. */
module Checksum {
  import opened Wrappers
  import opened Bits

  /** FNV-1a offset basis; the FNV prime 0x01000193 is written inline where it
      multiplies, so that the solver sees a literal. */
  const OffsetBasis: bv32 := 0x811c9dc5

  /** One round of the loop: xor in the code point, multiply by the FNV prime,
      keep the low 32 bits (the `& 0xffffffff` mask is bv32 wrap-around). */
  function Step(h: bv32, c: char): bv32 {
    (h ^ (c as int as bv32)) * 0x01000193
  }

  /** The accumulator after folding every character of `s` into `h`, left to right. */
  function Fold(h: bv32, s: string): bv32
    decreases |s|
  {
    if s == [] then h else Fold(Step(h, s[0]), s[1..])
  }

  function Fnv(s: string): bv32 {
    Fold(OffsetBasis, s)
  }

  // ---------------------------------------------------------------------------
  // Lowercase hexadecimal rendering, `f'{hashed:08x}'`

  predicate IsLowerHex(c: char) {
    ('0' <= c <= '9') || ('a' <= c <= 'f')
  }

  function HexDigit(v: nat): (c: char)
    requires v < 16
    ensures IsLowerHex(c)
  {
    if v < 10 then ('0' as int + v) as char else ('a' as int + v - 10) as char
  }

  /** The value of a lowercase hex digit (0 for any other character). */
  function DigitValue(c: char): (v: nat)
    ensures v < 16
  {
    if '0' <= c <= '9' then c as int - '0' as int
    else if 'a' <= c <= 'f' then c as int - 'a' as int + 10
    else 0
  }

  function Pow16(width: nat): nat {
    if width == 0 then 1 else 16 * Pow16(width - 1)
  }

  /** `n` written with exactly `width` lowercase hex digits, most significant first. */
  function Hex(n: nat, width: nat): (r: string)
    ensures |r| == width
    ensures forall i :: 0 <= i < width ==> IsLowerHex(r[i])
  {
    if width == 0 then [] else Hex(n / 16, width - 1) + [HexDigit(n % 16)]
  }

  /** Reads a string of hex digits back as a number. */
  function ParseHex(s: string): nat {
    if s == [] then 0 else ParseHex(s[..|s| - 1]) * 16 + DigitValue(s[|s| - 1])
  }

  lemma {:induction false} ParseHexRoundTrip(n: nat, width: nat)
    requires n < Pow16(width)
    ensures ParseHex(Hex(n, width)) == n
  {
    if width > 0 {
      var front := Hex(n / 16, width - 1);
      assert Hex(n, width)[..width - 1] == front;
      ParseHexRoundTrip(n / 16, width - 1);
    }
  }

  /** The digest text that `hashing` returns for the combined input. */
  function DigestOf(s: string): string {
    Hex(Fnv(s) as int, 8)
  }

  /** Reading the eight digits back gives the accumulator: the rendering loses
      nothing, so two digests are equal exactly when the accumulators are. */
  lemma DigestDeterminesAccumulator(s: string)
    ensures ParseHex(DigestOf(s)) == Fnv(s) as int
  {
    assert Pow16(8) == 0x1_0000_0000;
    ParseHexRoundTrip(Fnv(s) as int, 8);
  }

  // ---------------------------------------------------------------------------
  // Properties of the fold

  /** Hashing a concatenation continues from the accumulator of the prefix;
      in particular the salt is simply folded in after the input. */
  lemma {:induction false} FoldAppend(h: bv32, s: string, t: string)
    decreases |s|
    ensures Fold(h, s + t) == Fold(Fold(h, s), t)
  {
    if s != [] {
      var h' := Step(h, s[0]);
      assert (s + t)[0] == s[0];
      assert (s + t)[1..] == s[1..] + t;
      assert Fold(h, s + t) == Fold(h', s[1..] + t);
      assert Fold(h, s) == Fold(h', s[1..]);
      FoldAppend(h', s[1..], t);
    } else {
      assert s + t == t;
    }
  }

  /** One more character is one more round. */
  lemma FoldSnoc(h: bv32, s: string, c: char)
    ensures Fold(h, s + [c]) == Step(Fold(h, s), c)
  {
    FoldAppend(h, s, [c]);
    assert [c][1..] == [];
  }

  /** The salt is appended before hashing: `hashing(s, t) == hashing(s + t, '')`,
      and the digest of `s + t` can be computed by continuing from `s`'s accumulator. */
  lemma SaltIsAppended(s: string, t: string)
    ensures DigestOf(s + t) == DigestOf((s + t) + "")
    ensures Fnv(s + t) == Fold(Fnv(s), t)
  {
    assert (s + t) + "" == s + t;
    FoldAppend(OffsetBasis, s, t);
  }

  // ---------------------------------------------------------------------------
  // custom_hash, hashing, verify_hash

  /** `hashing(input, salt)`: fold every character of `input + salt`. */
  method Hashing(input: string, salt: string) returns (digest: string)
    ensures digest == DigestOf(input + salt)
    ensures |digest| == 8 && forall i :: 0 <= i < 8 ==> IsLowerHex(digest[i])
  {
    var combined := input + salt;
    var hashed := OffsetBasis;
    for i := 0 to |combined|
      invariant hashed == Fnv(combined[..i])
    {
      FoldSnoc(OffsetBasis, combined[..i], combined[i]);
      assert combined[..i + 1] == combined[..i] + [combined[i]];
      hashed := Step(hashed, combined[i]);
    }
    assert combined[..|combined|] == combined;
    digest := Hex(hashed as int, 8);
  }

  /** `verify_hash`: exact, case-sensitive comparison with a fresh digest. */
  method VerifyHash(input: string, salt: string, hashed: string) returns (ok: bool)
    ensures ok <==> hashed == DigestOf(input + salt)
  {
    var digest := Hashing(input, salt);
    ok := digest == hashed;
  }

  /** What `custom_hash` returns: the digest, or a verdict when a candidate
      digest string is passed as `hash_val`. */
  datatype HashOutcome = Text(digest: string) | Verdict(ok: bool)

  method CustomHash(input: string, salt: string, hashVal: Option<string>) returns (r: HashOutcome)
    ensures hashVal.None? ==> r == Text(DigestOf(input + salt))
    ensures hashVal.Some? ==> r == Verdict(hashVal.value == DigestOf(input + salt))
  {
    if hashVal.Some? {
      var ok := VerifyHash(input, salt, hashVal.value);
      r := Verdict(ok);
    } else {
      var digest := Hashing(input, salt);
      r := Text(digest);
    }
  }

  /** `custom_hash(s, salt, custom_hash(s, salt))` is true: a digest always
      verifies against the text it was computed from. */
  method CustomHashAcceptsOwnDigest(input: string, salt: string) returns (r: HashOutcome)
    ensures r == Verdict(true)
  {
    var first := CustomHash(input, salt, None);
    r := CustomHash(input, salt, Some(first.digest));
  }

  // ---------------------------------------------------------------------------
  // xor_cipher

  /** A Python string is a sequence of code points (surrogates included). */
  type CodePoint = c: int | 0 <= c < 0x11_0000

  datatype CipherError =
    | ZeroDivision          // `i % len(key)` with an empty key
    | CodePointOutOfRange   // `chr` of a value above 0x10FFFF

  function XorAt(input: seq<CodePoint>, key: seq<CodePoint>, i: nat): nat
    requires i < |input| && |key| > 0
  {
    Xor(input[i], key[i % |key|])
  }

  /** `xor_cipher(input, key)`: code point `i` of the input xor-ed with the key,
      the key repeated cyclically; `chr` fails above the last code point. */
  function XorCipher(input: seq<CodePoint>, key: seq<CodePoint>): (r: Result<seq<CodePoint>, CipherError>)
    ensures r.Success? ==> |r.value| == |input|
    ensures r.Success? ==> forall i :: 0 <= i < |input| ==> |key| > 0 && r.value[i] == XorAt(input, key, i)
    ensures r == Failure(ZeroDivision) <==> |input| > 0 && |key| == 0
    ensures r == Failure(CodePointOutOfRange) <==>
      |input| > 0 && |key| > 0 && exists i :: 0 <= i < |input| && XorAt(input, key, i) >= 0x11_0000
  {
    if |input| == 0 then Success([])
    else if |key| == 0 then Failure(ZeroDivision)
    else if exists i :: 0 <= i < |input| && XorAt(input, key, i) >= 0x11_0000 then Failure(CodePointOutOfRange)
    else Success(seq(|input|, i requires 0 <= i < |input| => XorAt(input, key, i) as CodePoint))
  }

  /** Enciphering twice with the same key gives the input back. */
  lemma XorCipherInvolution(input: seq<CodePoint>, key: seq<CodePoint>)
    requires XorCipher(input, key).Success?
    ensures XorCipher(XorCipher(input, key).value, key) == Success(input)
  {
    var once := XorCipher(input, key).value;
    if |input| > 0 {
      forall i | 0 <= i < |input|
        ensures XorAt(once, key, i) == input[i]
      {
        XorTwice(input[i], key[i % |key|]);
      }
      assert XorCipher(once, key).value == input;
    }
  }

  /** With a non-empty key, ASCII input and an ASCII key never fail, and the
      output is ASCII again. */
  lemma XorCipherAsciiSucceeds(input: seq<CodePoint>, key: seq<CodePoint>)
    requires |key| > 0
    requires forall i :: 0 <= i < |input| ==> input[i] < 128
    requires forall i :: 0 <= i < |key| ==> key[i] < 128
    ensures XorCipher(input, key).Success?
    ensures forall i :: 0 <= i < |input| ==> XorCipher(input, key).value[i] < 128
  {
    assert Pow2(7) == 128;
    forall i | 0 <= i < |input|
      ensures XorAt(input, key, i) < 128
    {
      XorBound(input[i], key[i % |key|], 7);
    }
  }
}
