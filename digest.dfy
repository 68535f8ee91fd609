/**
 * Ruby `Digest::SHA1.hexdigest(content)[0..7]`, the short hash the three
 * diagram tags put into element ids. SHA-1 itself is not modelled: it is a
 * parameter taking the UTF-8 bytes of the content to a 20-byte digest.
 */
module Digest {
  import opened Common
  import Utf8

  /** A SHA-1 digest: 20 bytes. */
  type Sha1Digest = d: seq<byte> | |d| == 20 witness seq(20, _ => 0)

  predicate IsLowerHexDigit(c: char) { '0' <= c <= '9' || 'a' <= c <= 'f' }

  function HexDigit(v: int): (c: char)
    requires 0 <= v < 16
    ensures IsLowerHexDigit(c)
  {
    if v < 10 then ('0' as int + v) as char else ('a' as int + v - 10) as char
  }

  function HexValue(c: char): (r: Option<int>)
    ensures r.Some? <==> IsLowerHexDigit(c)
    ensures r.Some? ==> 0 <= r.value < 16
  {
    if '0' <= c <= '9' then Some(c as int - '0' as int)
    else if 'a' <= c <= 'f' then Some(c as int - 'a' as int + 10)
    else None
  }

  /** Lower-case hexadecimal, two digits per byte, high nibble first. */
  function Hex(bs: seq<byte>): (h: string)
    ensures |h| == 2 * |bs|
    ensures forall i :: 0 <= i < |h| ==> IsLowerHexDigit(h[i])
    decreases |bs|
  {
    if bs == [] then [] else [HexDigit(bs[0] / 16), HexDigit(bs[0] % 16)] + Hex(bs[1..])
  }

  /** The bytes a lower-case hexadecimal string spells, if it has an even length and only hex digits. */
  function ParseHex(h: string): Option<seq<byte>>
    decreases |h|
  {
    if h == [] then Some([])
    else if |h| == 1 then None
    else match (HexValue(h[0]), HexValue(h[1]), ParseHex(h[2..]))
      case (Some(hi), Some(lo), Some(rest)) => Some([hi * 16 + lo] + rest)
      case _ => None
  }

  lemma {:induction false} ParseHexHex(bs: seq<byte>)
    ensures ParseHex(Hex(bs)) == Some(bs)
    decreases |bs|
  {
    if bs != [] {
      var h := Hex(bs);
      ParseHexHex(bs[1..]);
      assert h[2..] == Hex(bs[1..]);
      assert HexValue(h[0]) == Some(bs[0] / 16) && HexValue(h[1]) == Some(bs[0] % 16);
      assert [bs[0]] + bs[1..] == bs;
    }
  }

  /** The hex of a prefix is the prefix of the hex. */
  lemma {:induction false} HexPrefix(bs: seq<byte>, n: nat)
    requires n <= |bs|
    ensures Hex(bs)[..2 * n] == Hex(bs[..n])
    decreases n
  {
    if n > 0 {
      HexPrefix(bs[1..], n - 1);
      assert bs[..n][1..] == bs[1..][..n - 1];
    }
  }

  /** Two byte strings have the same hex exactly when they are equal. */
  lemma HexInjective(a: seq<byte>, b: seq<byte>)
    ensures Hex(a) == Hex(b) <==> a == b
  {
    if Hex(a) == Hex(b) {
      ParseHexHex(a);
      ParseHexHex(b);
    }
  }

  /** Ruby `Digest::SHA1.hexdigest(content)`: forty lower-case hex digits. */
  function HexDigest(sha1: seq<byte> -> Sha1Digest, content: string): (h: string)
    ensures |h| == 40
  {
    Hex(sha1(Utf8.Encode(content)))
  }

  /** Ruby `hexdigest[0..7]`: the first eight hex digits (an inclusive range). */
  function ShortHash(sha1: seq<byte> -> Sha1Digest, content: string): (h: string)
  {
    HexDigest(sha1, content)[..8]
  }

  /** The short hash is eight lower-case hex digits spelling the first four digest bytes. */
  lemma ShortHashIsFirstFourBytes(sha1: seq<byte> -> Sha1Digest, content: string)
    ensures |ShortHash(sha1, content)| == 8
    ensures forall i :: 0 <= i < 8 ==> IsLowerHexDigit(ShortHash(sha1, content)[i])
    ensures ShortHash(sha1, content) == Hex(sha1(Utf8.Encode(content))[..4])
  {
    HexPrefix(sha1(Utf8.Encode(content)), 4);
  }

  /** Two contents share a short hash exactly when their digests agree on the first four bytes. */
  lemma ShortHashCollision(sha1: seq<byte> -> Sha1Digest, c1: string, c2: string)
    ensures ShortHash(sha1, c1) == ShortHash(sha1, c2)
        <==> sha1(Utf8.Encode(c1))[..4] == sha1(Utf8.Encode(c2))[..4]
  {
    ShortHashIsFirstFourBytes(sha1, c1);
    ShortHashIsFirstFourBytes(sha1, c2);
    HexInjective(sha1(Utf8.Encode(c1))[..4], sha1(Utf8.Encode(c2))[..4]);
  }
}
