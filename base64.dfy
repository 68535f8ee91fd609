/**
 * Base64 as RFC 4648 defines it: section 4 (alphabet ending "+/") and
 * section 5 (URL- and filename-safe, ending "-_"), with '=' padding.
 *
 * Encoding is split into an alphabet-free step (bytes to 6-bit values,
 * `Sextets`) and rendering of those values in one alphabet, so that swapping
 * alphabets (Ruby's `tr('+/', '-_')`) and stripping padding can be stated
 * exactly. The decoder is strict: it accepts only canonical encodings, so
 * `Decode(a, s) == Some(b)` holds exactly when `Encode(a, b) == s`.
 */
module Base64 {
  import opened Common

  datatype Alphabet = Standard | UrlSafe

  type Sextet = x: int | 0 <= x < 64

  /** The character that stands for `v` in alphabet `a`. */
  function CharOf(a: Alphabet, v: Sextet): (c: char)
    ensures c != '='
  {
    if v < 26 then ('A' as int + v) as char
    else if v < 52 then ('a' as int + (v - 26)) as char
    else if v < 62 then ('0' as int + (v - 52)) as char
    else if v == 62 then (if a == Standard then '+' else '-')
    else (if a == Standard then '/' else '_')
  }

  /** The value a character stands for in alphabet `a`, if it is one of its 64 characters. */
  function ValueOf(a: Alphabet, c: char): Option<Sextet>
  {
    if 'A' <= c <= 'Z' then Some(c as int - 'A' as int)
    else if 'a' <= c <= 'z' then Some(c as int - 'a' as int + 26)
    else if '0' <= c <= '9' then Some(c as int - '0' as int + 52)
    else if c == (if a == Standard then '+' else '-') then Some(62)
    else if c == (if a == Standard then '/' else '_') then Some(63)
    else None
  }

  predicate InAlphabet(a: Alphabet, c: char) { ValueOf(a, c).Some? }

  lemma ValueOfCharOf(a: Alphabet, v: Sextet)
    ensures ValueOf(a, CharOf(a, v)) == Some(v)
  {
  }

  lemma CharOfValueOf(a: Alphabet, c: char)
    requires InAlphabet(a, c)
    ensures CharOf(a, ValueOf(a, c).value) == c
  {
  }

  /** No URL-safe character is '+' or '/'. */
  lemma UrlSafeChars(v: Sextet)
    ensures CharOf(UrlSafe, v) != '+' && CharOf(UrlSafe, v) != '/'
  {
  }

  // ---------------------------------------------------------------------------
  // Bytes to 6-bit values and back
  // ---------------------------------------------------------------------------

  /** Each group of three bytes gives four values; a final group of one or two bytes gives two or three. */
  function Sextets(b: seq<byte>): (sx: seq<Sextet>)
    ensures |sx| == (4 * |b| + 2) / 3
    decreases |b|
  {
    if |b| == 0 then []
    else if |b| == 1 then [b[0] / 4, b[0] % 4 * 16]
    else if |b| == 2 then [b[0] / 4, b[0] % 4 * 16 + b[1] / 16, b[1] % 16 * 4]
    else [b[0] / 4, b[0] % 4 * 16 + b[1] / 16, b[1] % 16 * 4 + b[2] / 64, b[2] % 64] + Sextets(b[3..])
  }

  /** The first byte of a group: six bits of the first value and two of the second. */
  function Byte0(v0: int, v1: int): byte
    requires 0 <= v0 < 64 && 0 <= v1 < 64
  {
    v0 * 4 + v1 / 16
  }

  /** The second byte of a group: four bits of the second value and four of the third. */
  function Byte1(v1: int, v2: int): byte
    requires 0 <= v1 < 64 && 0 <= v2 < 64
  {
    v1 % 16 * 16 + v2 / 4
  }

  /** The third byte of a group: two bits of the third value and six of the fourth. */
  function Byte2(v2: int, v3: int): byte
    requires 0 <= v2 < 64 && 0 <= v3 < 64
  {
    v2 % 4 * 64 + v3
  }

  /** The bytes a sequence of 6-bit values stands for; None when its length or unused low bits are not canonical. */
  function FromSextets(sx: seq<Sextet>): (r: Option<seq<byte>>)
    ensures r.Some? ==> |sx| % 4 != 1
    decreases |sx|
  {
    if |sx| == 0 then Some([])
    else if |sx| == 1 then None
    else if |sx| == 2 then
      if sx[1] % 16 == 0 then Some([Byte0(sx[0], sx[1])]) else None
    else if |sx| == 3 then
      if sx[2] % 4 == 0 then Some([Byte0(sx[0], sx[1]), Byte1(sx[1], sx[2])]) else None
    else
      match FromSextets(sx[4..])
      case None => None
      case Some(rest) => Some([Byte0(sx[0], sx[1]), Byte1(sx[1], sx[2]), Byte2(sx[2], sx[3])] + rest)
  }

  lemma {:induction false} FromSextetsSextets(b: seq<byte>)
    ensures FromSextets(Sextets(b)) == Some(b)
    decreases |b|
  {
    var sx := Sextets(b);
    if |b| == 1 {
      assert sx[1] % 16 == 0 && sx[1] / 16 == b[0] % 4;
      assert Byte0(sx[0], sx[1]) == b[0];
      assert |sx| == 2 && FromSextets(sx) == Some([Byte0(sx[0], sx[1])]);
      assert [b[0]] == b;
    } else if |b| == 2 {
      assert sx[1] / 16 == b[0] % 4 && sx[1] % 16 == b[1] / 16;
      assert sx[2] % 4 == 0 && sx[2] / 4 == b[1] % 16;
      assert Byte0(sx[0], sx[1]) == b[0];
      assert Byte1(sx[1], sx[2]) == b[1];
      assert |sx| == 3 && FromSextets(sx) == Some([Byte0(sx[0], sx[1]), Byte1(sx[1], sx[2])]);
      assert [b[0], b[1]] == b;
    } else if |b| >= 3 {
      FromSextetsSextets(b[3..]);
      assert sx[4..] == Sextets(b[3..]);
      assert Byte0(sx[0], sx[1]) == b[0];
      assert Byte1(sx[1], sx[2]) == b[1];
      assert Byte2(sx[2], sx[3]) == b[2];
      assert [b[0], b[1], b[2]] + b[3..] == b;
    }
  }

  lemma {:induction false} SextetsFromSextets(sx: seq<Sextet>)
    requires FromSextets(sx).Some?
    ensures Sextets(FromSextets(sx).value) == sx
    decreases |sx|
  {
    var b := FromSextets(sx).value;
    if |sx| == 2 {
      assert b[0] / 4 == sx[0] && b[0] % 4 == sx[1] / 16;
    } else if |sx| == 3 {
      assert b[0] / 4 == sx[0] && b[0] % 4 == sx[1] / 16;
      assert b[1] / 16 == sx[1] % 16 && b[1] % 16 == sx[2] / 4;
    } else if |sx| >= 4 {
      var rest := FromSextets(sx[4..]).value;
      SextetsFromSextets(sx[4..]);
      assert b[0] / 4 == sx[0] && b[0] % 4 == sx[1] / 16;
      assert b[1] / 16 == sx[1] % 16 && b[1] % 16 == sx[2] / 4;
      assert b[2] / 64 == sx[2] % 4 && b[2] % 64 == sx[3];
      assert b[3..] == rest;
      assert sx == sx[..4] + sx[4..];
    }
  }

  // ---------------------------------------------------------------------------
  // Rendering, padding, encoding and decoding
  // ---------------------------------------------------------------------------

  function Render(a: Alphabet, sx: seq<Sextet>): (s: string)
    ensures |s| == |sx|
    ensures forall i :: 0 <= i < |s| ==> s[i] == CharOf(a, sx[i])
  {
    seq(|sx|, i requires 0 <= i < |sx| => CharOf(a, sx[i]))
  }

  /** The characters of `s` read in alphabet `a`, if every one belongs to it. */
  function Values(a: Alphabet, s: string): (r: Option<seq<Sextet>>)
    ensures r.Some? <==> forall i :: 0 <= i < |s| ==> InAlphabet(a, s[i])
    ensures r.Some? ==> |r.value| == |s| && forall i :: 0 <= i < |s| ==> ValueOf(a, s[i]) == Some(r.value[i])
  {
    if forall i | 0 <= i < |s| :: InAlphabet(a, s[i]) then
      Some(seq(|s|, i requires 0 <= i < |s| => ValueOf(a, s[i]).value))
    else None
  }

  /** The '=' characters that pad an encoding of `n` bytes to a multiple of four. */
  function Padding(n: nat): (p: string)
    ensures |p| == (4 - (4 * n + 2) / 3 % 4) % 4
    ensures forall i :: 0 <= i < |p| ==> p[i] == '='
  {
    if n % 3 == 1 then "==" else if n % 3 == 2 then "=" else ""
  }

  /** Padded base64 of `b` in alphabet `a` (Ruby `Base64.strict_encode64` for `Standard`, JavaScript `btoa` of a byte string). */
  function Encode(a: Alphabet, b: seq<byte>): (s: string)
    ensures |s| == 4 * ((|b| + 2) / 3)
  {
    Render(a, Sextets(b)) + Padding(|b|)
  }

  /** Drops at most two trailing '=' characters. */
  function StripPad(s: string): (body: string)
    ensures |s| - 2 <= |body| <= |s| && body == s[..|body|]
    ensures forall i :: |body| <= i < |s| ==> s[i] == '='
  {
    if |s| >= 2 && s[|s| - 2] == '=' && s[|s| - 1] == '=' then s[..|s| - 2]
    else if |s| >= 1 && s[|s| - 1] == '=' then s[..|s| - 1]
    else s
  }

  /** Strict decoding: a multiple of four characters, at most two '=' at the end, canonical unused bits. */
  function Decode(a: Alphabet, s: string): Option<seq<byte>>
  {
    if |s| % 4 != 0 then None
    else
      match Values(a, StripPad(s))
      case None => None
      case Some(sx) => FromSextets(sx)
  }

  lemma RenderValues(a: Alphabet, sx: seq<Sextet>)
    ensures Values(a, Render(a, sx)) == Some(sx)
  {
    var r := Render(a, sx);
    forall i | 0 <= i < |sx| ensures ValueOf(a, r[i]) == Some(sx[i]) {
      ValueOfCharOf(a, sx[i]);
    }
    assert Values(a, r).value == sx;
  }

  /** Removing the padding of a rendered string leaves the rendering. */
  lemma StripPadRender(a: Alphabet, sx: seq<Sextet>, p: string)
    requires |p| <= 2 && forall i :: 0 <= i < |p| ==> p[i] == '='
    ensures StripPad(Render(a, sx) + p) == Render(a, sx)
  {
    var r := Render(a, sx);
    var s := r + p;
    if |p| == 2 {
      assert s[|s| - 2] == '=' && s[|s| - 1] == '=';
      assert s[..|s| - 2] == r;
    } else if |p| == 1 {
      assert s[|s| - 1] == '=' && s[..|s| - 1] == r;
      if |r| > 0 { assert s[|s| - 2] == r[|r| - 1] != '='; }
    } else {
      assert s == r;
      if |r| > 0 { assert s[|s| - 1] == r[|r| - 1] != '='; }
    }
  }

  /** The padding that completes a body of `body` characters to `total`, a multiple of four. */
  lemma PadLength(total: nat, body: nat)
    requires total % 4 == 0 && total - 2 <= body <= total && body % 4 != 1
    ensures total - body == (4 - body % 4) % 4
  {
  }

  /** Decoding an encoding gives the bytes back (RFC 4648 round trip). */
  lemma DecodeEncode(a: Alphabet, b: seq<byte>)
    ensures Decode(a, Encode(a, b)) == Some(b)
  {
    var sx := Sextets(b);
    var body := Render(a, sx);
    var s := Encode(a, b);
    assert s == body + Padding(|b|);
    assert |s| % 4 == 0;
    StripPadRender(a, sx, Padding(|b|));
    assert StripPad(s) == body;
    RenderValues(a, sx);
    FromSextetsSextets(b);
  }

  /** Rendering the values read from a string gives the string back. */
  lemma RenderOfValues(a: Alphabet, s: string)
    requires Values(a, s).Some?
    ensures Render(a, Values(a, s).value) == s
  {
    var sx := Values(a, s).value;
    forall i | 0 <= i < |s| ensures Render(a, sx)[i] == s[i] {
      CharOfValueOf(a, s[i]);
    }
  }

  /** Only the encoding of `b` decodes to `b`: the decoder rejects every other string. */
  lemma EncodeDecode(a: Alphabet, s: string)
    requires Decode(a, s).Some?
    ensures Encode(a, Decode(a, s).value) == s
  {
    var body := StripPad(s);
    var sx := Values(a, body).value;
    var b := FromSextets(sx).value;
    SextetsFromSextets(sx);
    RenderOfValues(a, body);
    PaddingFills(|s|, |b|);
    var tail := s[|body|..];
    assert Padding(|b|) == tail;
    assert s == body + tail;
  }

  /** The padding of `n` bytes fills their sextets up to any multiple of four at most two characters longer. */
  lemma PaddingFills(total: nat, n: nat)
    requires total % 4 == 0 && total - 2 <= (4 * n + 2) / 3 <= total
    ensures |Padding(n)| == total - (4 * n + 2) / 3
  {
    var body := (4 * n + 2) / 3;
    assert body % 4 != 1 by {
      var k := n / 3;
      assert n == 3 * k + n % 3;
      if n % 3 == 0 {
        assert body == 4 * k;
      } else if n % 3 == 1 {
        assert body == 4 * k + 2;
      } else {
        assert body == 4 * k + 3;
      }
    }
    PadLength(total, body);
  }

  /** Every character of an encoding is a character of its alphabet or padding. */
  lemma EncodeChars(a: Alphabet, b: seq<byte>)
    ensures forall i :: 0 <= i < |Encode(a, b)| ==> InAlphabet(a, Encode(a, b)[i]) || Encode(a, b)[i] == '='
  {
    var r := Render(a, Sextets(b));
    forall i | 0 <= i < |r| ensures InAlphabet(a, r[i]) {
      ValueOfCharOf(a, Sextets(b)[i]);
    }
  }

  // ---------------------------------------------------------------------------
  // Alphabet translation and padding removal as Ruby writes them
  // ---------------------------------------------------------------------------

  /** The character `c` becomes under Ruby's `tr(from, to)`: the partner of its first occurrence in `from`. */
  function TrChar(c: char, from: string, to: string): char
    requires |from| == |to|
    decreases |from|
  {
    if from == [] then c else if c == from[0] then to[0] else TrChar(c, from[1..], to[1..])
  }

  /** Ruby `s.tr(from, to)` for equally long character lists without ranges. */
  function Tr(s: string, from: string, to: string): (r: string)
    requires |from| == |to|
    ensures |r| == |s|
  {
    seq(|s|, i requires 0 <= i < |s| => TrChar(s[i], from, to))
  }

  /** Translating a standard encoding character by character gives the URL-safe encoding of the same bytes. */
  lemma TrEncodeToUrlSafe(b: seq<byte>)
    ensures Tr(Encode(Standard, b), "+/", "-_") == Encode(UrlSafe, b)
  {
  }

  /** The reverse translation turns a URL-safe encoding into the standard one. */
  lemma TrEncodeToStandard(b: seq<byte>)
    ensures Tr(Encode(UrlSafe, b), "-_", "+/") == Encode(Standard, b)
  {
  }

  /** Adds '=' until the length is a multiple of four. */
  function Repad(s: string): (r: string)
    ensures |r| >= |s| && |r| % 4 == 0 && r[..|s|] == s
  {
    s + seq((4 - |s| % 4) % 4, _ => '=')
  }

  /** Re-padding the unpadded rendering gives the padded encoding. */
  lemma RepadRender(a: Alphabet, b: seq<byte>)
    ensures Repad(Render(a, Sextets(b))) == Encode(a, b)
  {
    var r := Render(a, Sextets(b));
    assert seq((4 - |r| % 4) % 4, _ => '=') == Padding(|b|);
  }
}
