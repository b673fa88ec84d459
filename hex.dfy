/**
 * Lower-case hexadecimal rendering of a byte string, as Rust's `{:x}`
 * formats a SHA-256 digest: two digits per byte, most significant nibble
 * first, zero padded.
 */
module Hex {
  import opened Wrappers

  newtype byte = x: int | 0 <= x < 256

  /** A SHA-256 digest (FIPS 180-4): 32 bytes. */
  type Digest = d: seq<byte> | |d| == 32 witness seq(32, _ => 0 as byte)

  const HexDigits: string := "0123456789abcdef"

  function HexByte(b: byte): (s: string)
    ensures |s| == 2 && s[0] in HexDigits && s[1] in HexDigits
  {
    [HexDigits[b as int / 16], HexDigits[b as int % 16]]
  }

  /** `format!("{:x}", bytes)`. */
  function HexLower(bs: seq<byte>): (s: string)
    ensures |s| == 2 * |bs|
  {
    if bs == [] then "" else HexByte(bs[0]) + HexLower(bs[1..])
  }

  /** Every character of the rendering is a lower-case hex digit. */
  lemma {:induction false} HexLowerDigits(bs: seq<byte>)
    ensures forall i :: 0 <= i < |HexLower(bs)| ==> HexLower(bs)[i] in HexDigits
  {
    if bs != [] {
      HexLowerDigits(bs[1..]);
      var h, t := HexByte(bs[0]), HexLower(bs[1..]);
      assert HexLower(bs) == h + t;
      forall i | 0 <= i < |h + t|
        ensures (h + t)[i] in HexDigits
      {
        if i >= 2 {
          assert (h + t)[i] == t[i - 2];
        }
      }
    }
  }

  function NibbleValue(c: char): (r: Option<int>)
    ensures r.Some? ==> 0 <= r.value < 16 && HexDigits[r.value] == c
  {
    if '0' <= c <= '9' then Some(c as int - '0' as int)
    else if 'a' <= c <= 'f' then Some(c as int - 'a' as int + 10)
    else None
  }

  /** The inverse of `HexLower`: reads pairs of lower-case hex digits back into bytes. */
  function HexDecode(s: string): Option<seq<byte>> {
    if |s| == 0 then Some([])
    else if |s| == 1 then None
    else
      match (NibbleValue(s[0]), NibbleValue(s[1]), HexDecode(s[2..]))
      case (Some(hi), Some(lo), Some(rest)) => Some([(hi * 16 + lo) as byte] + rest)
      case _ => None
  }

  lemma NibbleOfDigit(d: int)
    requires 0 <= d < 16
    ensures NibbleValue(HexDigits[d]) == Some(d)
  {
  }

  lemma DecodeStep(s: string, b: byte, rest: seq<byte>)
    requires |s| >= 2
    requires NibbleValue(s[0]) == Some(b as int / 16)
    requires NibbleValue(s[1]) == Some(b as int % 16)
    requires HexDecode(s[2..]) == Some(rest)
    ensures HexDecode(s) == Some([b] + rest)
  {
    NibblesRebuildByte(b);
  }

  lemma NibblesRebuildByte(b: byte)
    ensures (b as int / 16 * 16 + b as int % 16) as byte == b
  {
  }

  /** One byte's two digits in front of a decodable text decode to that byte in front. */
  lemma ByteRoundTrip(b: byte, rest: string, tail: seq<byte>)
    requires HexDecode(rest) == Some(tail)
    ensures HexDecode(HexByte(b) + rest) == Some([b] + tail)
  {
    var h := HexByte(b);
    var s := h + rest;
    NibbleOfDigit(b as int / 16);
    NibbleOfDigit(b as int % 16);
    assert s[0] == h[0] && s[1] == h[1];
    assert s[2..] == rest;
    DecodeStep(s, b, tail);
  }

  /** Decoding recovers the digest, so the checksum text determines the digest. */
  lemma {:induction false} HexRoundTrip(bs: seq<byte>)
    ensures HexDecode(HexLower(bs)) == Some(bs)
  {
    if bs != [] {
      HexRoundTrip(bs[1..]);
      ByteRoundTrip(bs[0], HexLower(bs[1..]), bs[1..]);
      assert bs == [bs[0]] + bs[1..];
    }
  }

  /** Different digests render as different checksums. */
  lemma HexLowerInjective(a: seq<byte>, b: seq<byte>)
    requires HexLower(a) == HexLower(b)
    ensures a == b
  {
    HexRoundTrip(a);
    HexRoundTrip(b);
  }
}
