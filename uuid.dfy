/** The text form of `generate_uuid`: every byte as two lowercase hex digits,
    grouped 8-4-4-4-12 with hyphens, as in section 3 of RFC 4122; with the
    version and variant fix-ups it is a version-4 UUID (section 4.4). */
module Uuid {
  import opened Wrappers
  import opened Checksum

  type Byte = b: int | 0 <= b < 256

  /** `''.join(f'{b:02x}' for b in bytes)`. */
  function HexBytes(bs: seq<Byte>): (r: string)
    ensures |r| == 2 * |bs|
    ensures forall i :: 0 <= i < |r| ==> IsLowerHex(r[i])
  {
    if bs == [] then [] else Hex(bs[0], 2) + HexBytes(bs[1..])
  }

  /** Digits `2k` and `2k+1` render byte `k`. */
  lemma {:induction false} HexBytesAt(bs: seq<Byte>, k: nat)
    requires k < |bs|
    ensures HexBytes(bs)[2 * k..2 * k + 2] == Hex(bs[k], 2)
  {
    if k > 0 {
      HexBytesAt(bs[1..], k - 1);
      assert HexBytes(bs) == Hex(bs[0], 2) + HexBytes(bs[1..]);
    }
  }

  /** `f'{uuid[:8]}-{uuid[8:12]}-{uuid[12:16]}-{uuid[16:20]}-{uuid[20:]}'`. */
  function Text(bytes: seq<Byte>): (u: string)
    requires |bytes| == 16
    ensures |u| == 36
  {
    var h := HexBytes(bytes);
    h[..8] + "-" + h[8..12] + "-" + h[12..16] + "-" + h[16..20] + "-" + h[20..]
  }

  /** The leading digit of a byte's two-digit rendering is its high nibble. */
  lemma HighDigit(b: Byte)
    ensures Hex(b, 2)[0] == HexDigit(b / 16)
  {
    assert Hex(b, 2) == Hex(b / 16, 1) + [HexDigit(b % 16)];
    assert Hex(b / 16, 1) == Hex(b / 16 / 16, 0) + [HexDigit(b / 16 % 16)];
  }

  /** With the fix-ups applied the text has the RFC 4122 shape: 36 characters,
      hyphens at 8, 13, 18 and 23, lowercase hex digits elsewhere, version
      digit '4' at 14 and a variant digit from "89ab" at 19. */
  lemma Layout(bytes: seq<Byte>)
    requires |bytes| == 16 && 0x40 <= bytes[6] <= 0x4f && 0x80 <= bytes[8] <= 0xbf
    ensures |Text(bytes)| == 36
    ensures Text(bytes)[8] == '-' && Text(bytes)[13] == '-'
    ensures Text(bytes)[18] == '-' && Text(bytes)[23] == '-'
    ensures Text(bytes)[14] == '4'
    ensures Text(bytes)[19] in "89ab"
    ensures forall i :: 0 <= i < 36 && i != 8 && i != 13 && i != 18 && i != 23 ==> IsLowerHex(Text(bytes)[i])
  {
    var h := HexBytes(bytes);
    var u := Text(bytes);
    assert u[14] == h[12] && u[19] == h[16];
    HexBytesAt(bytes, 6);
    HexBytesAt(bytes, 8);
    assert h[12] == Hex(bytes[6], 2)[0];
    assert h[16] == Hex(bytes[8], 2)[0];
    HighDigit(bytes[6]);
    HighDigit(bytes[8]);
    assert bytes[6] / 16 == 4;
    assert 8 <= bytes[8] / 16 <= 11;
    forall i | 0 <= i < 36 && i != 8 && i != 13 && i != 18 && i != 23
      ensures IsLowerHex(u[i])
    {
      if i < 8 { assert u[i] == h[i]; }
      else if i < 13 { assert u[i] == h[i - 1]; }
      else if i < 18 { assert u[i] == h[i - 2]; }
      else if i < 23 { assert u[i] == h[i - 3]; }
      else { assert u[i] == h[i - 4]; }
    }
  }

  /** Reads a UUID text back into its sixteen byte values. */
  function Parse(u: string): (r: Option<seq<int>>)
    ensures r.Some? ==> |r.value| == 16
  {
    if |u| != 36 || u[8] != '-' || u[13] != '-' || u[18] != '-' || u[23] != '-' then None
    else
      var h := u[..8] + u[9..13] + u[14..18] + u[19..23] + u[24..];
      Some(seq(16, k requires 0 <= k < 16 => ParseHex(h[2 * k..2 * k + 2])))
  }

  /** The rendering loses nothing: parsing it gives every byte back. */
  lemma ParseText(bytes: seq<Byte>)
    requires |bytes| == 16
    ensures Parse(Text(bytes)) == Some(bytes)
  {
    var h := HexBytes(bytes);
    var u := Text(bytes);
    assert u == h[..8] + "-" + h[8..12] + "-" + h[12..16] + "-" + h[16..20] + "-" + h[20..];
    assert u[..8] == h[..8] && u[9..13] == h[8..12] && u[14..18] == h[12..16];
    assert u[19..23] == h[16..20] && u[24..] == h[20..];
    assert h[..8] + h[8..12] + h[12..16] + h[16..20] + h[20..] == h;
    forall k | 0 <= k < 16
      ensures ParseHex(h[2 * k..2 * k + 2]) == bytes[k]
    {
      HexBytesAt(bytes, k);
      assert Pow16(2) == 256;
      ParseHexRoundTrip(bytes[k], 2);
    }
    assert u[8] == '-' && u[13] == '-' && u[18] == '-' && u[23] == '-';
    assert seq(16, k requires 0 <= k < 16 => ParseHex(h[2 * k..2 * k + 2])) == bytes;
  }
}
