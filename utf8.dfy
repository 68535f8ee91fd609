/**
 * UTF-8 (RFC 3629): the bytes Ruby hands to zlib and SHA-1 for a string, and
 * the bytes `unescape(encodeURIComponent(text))` gives `btoa` in the browser.
 * The decoder is strict (no overlong forms, no surrogates, nothing above
 * U+10FFFF), so encoding and decoding are inverse in both directions.
 */
module Utf8 {
  import opened Common

  predicate IsContinuation(b: byte) { 0x80 <= b < 0xC0 }

  /** The one to four bytes of one code point. */
  function EncodeChar(c: char): (bs: seq<byte>)
    ensures 1 <= |bs| <= 4
    ensures |bs| == 1 <==> c as int < 0x80
    ensures forall i :: 1 <= i < |bs| ==> IsContinuation(bs[i])
  {
    var v := c as int;
    if v < 0x80 then [v]
    else if v < 0x800 then [0xC0 + v / 64, 0x80 + v % 64]
    else if v < 0x10000 then [0xE0 + v / 4096, 0x80 + v / 64 % 64, 0x80 + v % 64]
    else [0xF0 + v / 262144, 0x80 + v / 4096 % 64, 0x80 + v / 64 % 64, 0x80 + v % 64]
  }

  function Encode(s: string): (bs: seq<byte>)
    ensures |s| <= |bs| <= 4 * |s|
    decreases |s|
  {
    if s == [] then [] else EncodeChar(s[0]) + Encode(s[1..])
  }

  /** A code point that Dafny's `char` can hold: a Unicode scalar value. */
  predicate IsScalar(v: int) { 0 <= v < 0xD800 || 0xE000 <= v < 0x110000 }

  /** The first code point of `bs` and how many bytes it takes, or None when `bs` does not start with one. */
  function DecodeFirst(bs: seq<byte>): (r: Option<(char, nat)>)
    ensures r.Some? ==> 1 <= r.value.1 <= |bs| && r.value.1 <= 4
  {
    if bs == [] then None
    else
      var b0: int := bs[0];
      if b0 < 0x80 then Some((b0 as char, 1))
      else if 0xC2 <= b0 < 0xE0 && |bs| >= 2 && IsContinuation(bs[1]) then
        var v := Value2(b0, bs[1]);
        Some((v as char, 2))
      else if 0xE0 <= b0 < 0xF0 && |bs| >= 3 && IsContinuation(bs[1]) && IsContinuation(bs[2]) then
        var v := Value3(b0, bs[1], bs[2]);
        if 0x800 <= v && IsScalar(v) then Some((v as char, 3)) else None
      else if 0xF0 <= b0 < 0xF5 && |bs| >= 4 && IsContinuation(bs[1]) && IsContinuation(bs[2])
              && IsContinuation(bs[3]) then
        var v := Value4(b0, bs[1], bs[2], bs[3]);
        if 0x10000 <= v < 0x110000 then Some((v as char, 4)) else None
      else None
  }

  /** The code point a two-byte sequence stands for. */
  function Value2(b0: int, b1: int): (v: int)
    requires 0xC2 <= b0 < 0xE0 && 0x80 <= b1 < 0xC0
    ensures 0x80 <= v < 0x800
  {
    (b0 - 0xC0) * 64 + (b1 - 0x80)
  }

  /** The code point a three-byte sequence stands for. */
  function Value3(b0: int, b1: int, b2: int): (v: int)
    requires 0xE0 <= b0 < 0xF0 && 0x80 <= b1 < 0xC0 && 0x80 <= b2 < 0xC0
    ensures 0 <= v < 0x10000
  {
    (b0 - 0xE0) * 4096 + (b1 - 0x80) * 64 + (b2 - 0x80)
  }

  /** The code point a four-byte sequence stands for. */
  function Value4(b0: int, b1: int, b2: int, b3: int): (v: int)
    requires 0xF0 <= b0 < 0xF5 && 0x80 <= b1 < 0xC0 && 0x80 <= b2 < 0xC0 && 0x80 <= b3 < 0xC0
    ensures 0 <= v
  {
    (b0 - 0xF0) * 262144 + (b1 - 0x80) * 4096 + (b2 - 0x80) * 64 + (b3 - 0x80)
  }

  function Decode(bs: seq<byte>): Option<string>
    decreases |bs|
  {
    if bs == [] then Some([])
    else match DecodeFirst(bs)
      case None => None
      case Some((c, n)) =>
        match Decode(bs[n..])
        case None => None
        case Some(rest) => Some([c] + rest)
  }

  /** Decoding a character's bytes, whatever follows them, gives that character back. */
  lemma DecodeFirstEncodeChar(c: char, rest: seq<byte>)
    ensures DecodeFirst(EncodeChar(c) + rest) == Some((c, |EncodeChar(c)|))
  {
    var v := c as int;
    var bs := EncodeChar(c) + rest;
    if v < 0x80 {
    } else if v < 0x800 {
      assert bs[0] == 0xC0 + v / 64 && bs[1] == 0x80 + v % 64;
      assert Value2(bs[0], bs[1]) == v;
    } else if v < 0x10000 {
      assert bs[0] == 0xE0 + v / 4096 && bs[1] == 0x80 + v / 64 % 64 && bs[2] == 0x80 + v % 64;
      Split3(v);
      assert Value3(bs[0], bs[1], bs[2]) == v;
    } else {
      assert bs[0] == 0xF0 + v / 262144 && bs[1] == 0x80 + v / 4096 % 64;
      assert bs[2] == 0x80 + v / 64 % 64 && bs[3] == 0x80 + v % 64;
      Split4(v);
      assert Value4(bs[0], bs[1], bs[2], bs[3]) == v;
    }
  }

  lemma Split3(v: int)
    requires 0x800 <= v < 0x10000
    ensures (v / 4096) * 4096 + (v / 64 % 64) * 64 + v % 64 == v
  {
    assert v / 64 == (v / 4096) * 64 + v / 64 % 64;
  }

  lemma Split4(v: int)
    requires 0x10000 <= v < 0x110000
    ensures (v / 262144) * 262144 + (v / 4096 % 64) * 4096 + (v / 64 % 64) * 64 + v % 64 == v
  {
    assert v / 4096 == (v / 262144) * 64 + v / 4096 % 64;
    assert v / 64 == (v / 4096) * 64 + v / 64 % 64;
  }

  /** Decoding the UTF-8 bytes of a string gives the string back. */
  lemma {:induction false} DecodeEncode(s: string)
    ensures Decode(Encode(s)) == Some(s)
    decreases |s|
  {
    if s != [] {
      var e := EncodeChar(s[0]);
      DecodeFirstEncodeChar(s[0], Encode(s[1..]));
      DecodeEncode(s[1..]);
      assert (e + Encode(s[1..]))[|e|..] == Encode(s[1..]);
      assert [s[0]] + s[1..] == s;
    }
  }

  /** The bytes a decoded character was read from are exactly its encoding. */
  lemma EncodeCharDecodeFirst(bs: seq<byte>)
    requires DecodeFirst(bs).Some?
    ensures EncodeChar(DecodeFirst(bs).value.0) == bs[..DecodeFirst(bs).value.1]
  {
    var b0: int := bs[0];
    if b0 < 0x80 {
    } else if b0 < 0xE0 {
      Digits2(b0, bs[1]);
    } else if b0 < 0xF0 {
      Digits3(b0, bs[1], bs[2]);
    } else {
      Digits4(b0, bs[1], bs[2], bs[3]);
    }
  }

  /** The six-bit groups of a two-byte code point are its bytes' payloads. */
  lemma Digits2(b0: int, b1: int)
    requires 0xC2 <= b0 < 0xE0 && 0x80 <= b1 < 0xC0
    ensures var v := Value2(b0, b1); v / 64 == b0 - 0xC0 && v % 64 == b1 - 0x80
  {
  }

  /** The six-bit groups of a three-byte code point are its bytes' payloads. */
  lemma Digits3(b0: int, b1: int, b2: int)
    requires 0xE0 <= b0 < 0xF0 && 0x80 <= b1 < 0xC0 && 0x80 <= b2 < 0xC0
    ensures var v := Value3(b0, b1, b2); v / 4096 == b0 - 0xE0 && v / 64 % 64 == b1 - 0x80 && v % 64 == b2 - 0x80
  {
    var v := Value3(b0, b1, b2);
    assert v / 64 == (b0 - 0xE0) * 64 + (b1 - 0x80) && v % 64 == b2 - 0x80;
  }

  /** The six-bit groups of a four-byte code point are its bytes' payloads. */
  lemma Digits4(b0: int, b1: int, b2: int, b3: int)
    requires 0xF0 <= b0 < 0xF5 && 0x80 <= b1 < 0xC0 && 0x80 <= b2 < 0xC0 && 0x80 <= b3 < 0xC0
    ensures var v := Value4(b0, b1, b2, b3);
      v / 262144 == b0 - 0xF0 && v / 4096 % 64 == b1 - 0x80 && v / 64 % 64 == b2 - 0x80 && v % 64 == b3 - 0x80
  {
    var v := Value4(b0, b1, b2, b3);
    assert v / 64 == (b0 - 0xF0) * 4096 + (b1 - 0x80) * 64 + (b2 - 0x80) && v % 64 == b3 - 0x80;
    assert v / 4096 == (b0 - 0xF0) * 64 + (b1 - 0x80);
  }

  /** Only the UTF-8 encoding of a string decodes to it: the decoder accepts no other byte sequence. */
  lemma {:induction false} EncodeDecode(bs: seq<byte>)
    requires Decode(bs).Some?
    ensures Encode(Decode(bs).value) == bs
    decreases |bs|
  {
    if bs != [] {
      var c := DecodeFirst(bs).value.0;
      var n := DecodeFirst(bs).value.1;
      EncodeCharDecodeFirst(bs);
      EncodeDecode(bs[n..]);
      var s := Decode(bs).value;
      assert s == [c] + Decode(bs[n..]).value;
      assert s[1..] == Decode(bs[n..]).value;
      assert bs == bs[..n] + bs[n..];
    }
  }

  /** ASCII text is its own encoding. */
  lemma {:induction false} EncodeAscii(s: string)
    requires forall i :: 0 <= i < |s| ==> s[i] as int < 0x80
    ensures |Encode(s)| == |s|
    ensures forall i :: 0 <= i < |s| ==> Encode(s)[i] == s[i] as int
    decreases |s|
  {
    if s != [] { EncodeAscii(s[1..]); }
  }
}
