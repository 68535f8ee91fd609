/**
 * The `{% plantuml %}` Liquid block of `_plugins/plantuml_plugin.rb`: it
 * wraps the body in `@startuml`/`@enduml` markers unless already present,
 * compresses it with zlib, base64-encodes the result, turns it into the
 * URL-safe alphabet and strips the padding, and emits an image pointing at
 * the public PlantUML server. zlib's deflate and SHA-1 are parameters.
 */
module PlantUmlPlugin {
  import opened Common
  import Text
  import Utf8
  import Base64
  import Digest
  import Html

  const StartMarker: string := "@startuml"

  /** The markers are added unless the text already mentions `@startuml` anywhere. */
  function WrapMarkers(text: string): (r: string)
    ensures Text.Contains(r, StartMarker)
  {
    if Text.Contains(text, StartMarker) then text
    else
      var r := "@startuml\n" + text + "\n@enduml";
      Html.ContainsMiddle([], StartMarker, "\n" + text + "\n@enduml");
      assert r == [] + StartMarker + ("\n" + text + "\n@enduml");
      r
  }

  /** Text that mentions the marker is sent as it is; any other text is framed by the two marker lines and kept whole between them. */
  lemma WrapMarkersCases(text: string)
    ensures Text.Contains(text, StartMarker) ==> WrapMarkers(text) == text
    ensures !Text.Contains(text, StartMarker) ==>
      var w := WrapMarkers(text);
      |w| == |text| + 18 && w[..10] == "@startuml\n" && w[10..|w| - 8] == text && w[|w| - 8..] == "\n@enduml"
  {
  }

  /** Wrapping is idempotent: wrapped text already contains the start marker. */
  lemma WrapMarkersIdempotent(text: string)
    ensures WrapMarkers(WrapMarkers(text)) == WrapMarkers(text)
  {
  }

  predicate IsEquals(c: char) { c == '=' }

  /**
   * Ruby `s.gsub(/=+$/, '')`: every maximal run of '=' that ends a line
   * (is followed by a line feed or the end of the string) is deleted;
   * runs followed by anything else stay.
   */
  function StripLineEndEquals(s: string): (r: string)
    ensures |r| <= |s|
    decreases |s|
  {
    if s == [] then []
    else if s[0] == '=' then
      var rest := Text.DropWhile(s, IsEquals);
      if rest == [] || rest[0] == '\n' then StripLineEndEquals(rest)
      else s[..|s| - |rest|] + StripLineEndEquals(rest)
    else [s[0]] + StripLineEndEquals(s[1..])
  }

  /** Removing the line-end padding of text without '=' or line feeds followed by padding leaves that text. */
  lemma {:induction false} StripLineEndEqualsPadding(r: string, pad: string)
    requires forall i :: 0 <= i < |r| ==> r[i] != '=' && r[i] != '\n'
    requires forall i :: 0 <= i < |pad| ==> pad[i] == '='
    ensures StripLineEndEquals(r + pad) == r
    decreases |r|
  {
    if r == [] {
      assert r + pad == pad;
      if pad != [] {
        assert Text.DropWhile(pad, IsEquals) == [];
      }
    } else {
      assert (r + pad)[1..] == r[1..] + pad;
      StripLineEndEqualsPadding(r[1..], pad);
    }
  }

  /** Line 45: the path token for a compressed payload. */
  function TokenOf(compressed: seq<byte>): string
  {
    StripLineEndEquals(Base64.Tr(Base64.Encode(Base64.Standard, compressed), "+/", "-_"))
  }

  /** The token is the unpadded URL-safe base64 of the payload: ceil(4n/3) characters, none of them '+', '/' or '='. */
  lemma TokenIsUnpaddedUrlSafe(compressed: seq<byte>)
    ensures TokenOf(compressed) == Base64.Render(Base64.UrlSafe, Base64.Sextets(compressed))
    ensures |TokenOf(compressed)| == (4 * |compressed| + 2) / 3
    ensures forall i :: 0 <= i < |TokenOf(compressed)| ==>
      Base64.InAlphabet(Base64.UrlSafe, TokenOf(compressed)[i])
      && TokenOf(compressed)[i] !in "+/="
  {
    var sx := Base64.Sextets(compressed);
    var r := Base64.Render(Base64.UrlSafe, sx);
    Base64.TrEncodeToUrlSafe(compressed);
    forall i | 0 <= i < |r| ensures Base64.InAlphabet(Base64.UrlSafe, r[i]) && r[i] !in "+/=" {
      Base64.ValueOfCharOf(Base64.UrlSafe, sx[i]);
      Base64.UrlSafeChars(sx[i]);
    }
    StripLineEndEqualsPadding(r, Base64.Padding(|compressed|));
  }

  /** Re-padding the token and translating it back to the standard alphabet decodes to exactly the compressed bytes. */
  lemma TokenDecodes(compressed: seq<byte>)
    ensures Base64.Decode(Base64.Standard, Base64.Tr(Base64.Repad(TokenOf(compressed)), "-_", "+/")) == Some(compressed)
  {
    TokenIsUnpaddedUrlSafe(compressed);
    Base64.RepadRender(Base64.UrlSafe, compressed);
    Base64.TrEncodeToStandard(compressed);
    Base64.DecodeEncode(Base64.Standard, compressed);
  }

  /** Distinct payloads give distinct tokens. */
  lemma TokenInjective(c1: seq<byte>, c2: seq<byte>)
    ensures TokenOf(c1) == TokenOf(c2) <==> c1 == c2
  {
    TokenDecodes(c1);
    TokenDecodes(c2);
  }

  /** `encode_plantuml`: markers, UTF-8 bytes, zlib at level 9, then the token. */
  function EncodePlantUml(deflate: seq<byte> -> seq<byte>, text: string): string
  {
    TokenOf(deflate(Utf8.Encode(WrapMarkers(text))))
  }

  /** The inverse of `encode_plantuml`: re-pad, untranslate, decode, inflate, read UTF-8. */
  function DecodeToken(inflate: seq<byte> -> seq<byte>, token: string): Option<string>
  {
    match Base64.Decode(Base64.Standard, Base64.Tr(Base64.Repad(token), "-_", "+/"))
    case None => None
    case Some(compressed) => Utf8.Decode(inflate(compressed))
  }

  /** With an inflate that undoes deflate, the token carries exactly the wrapped diagram source. */
  lemma EncodeDecodeRoundTrip(deflate: seq<byte> -> seq<byte>, inflate: seq<byte> -> seq<byte>, text: string)
    requires forall b :: inflate(deflate(b)) == b
    ensures DecodeToken(inflate, EncodePlantUml(deflate, text)) == Some(WrapMarkers(text))
  {
    var bytes := Utf8.Encode(WrapMarkers(text));
    TokenDecodes(deflate(bytes));
    Utf8.DecodeEncode(WrapMarkers(text));
  }

  const IdPrefix: string := "plantuml-"
  const ServerPrefix: string := "https://www.plantuml.com/plantuml/svg/"

  /** Line 17: the id hashes the raw block body, before any wrapping. */
  function DiagramId(sha1: seq<byte> -> Digest.Sha1Digest, content: string): string
  {
    IdPrefix + Digest.ShortHash(sha1, content)
  }

  /** The id is the prefix and eight hex digits; two bodies share an id exactly when their digests share four leading bytes. */
  lemma DiagramIdShape(sha1: seq<byte> -> Digest.Sha1Digest, c1: string, c2: string)
    ensures |DiagramId(sha1, c1)| == |IdPrefix| + 8
    ensures forall i :: |IdPrefix| <= i < |DiagramId(sha1, c1)| ==> Digest.IsLowerHexDigit(DiagramId(sha1, c1)[i])
    ensures DiagramId(sha1, c1) == DiagramId(sha1, c2)
        <==> sha1(Utf8.Encode(c1))[..4] == sha1(Utf8.Encode(c2))[..4]
  {
    Digest.ShortHashIsFirstFourBytes(sha1, c1);
    Digest.ShortHashCollision(sha1, c1, c2);
    if DiagramId(sha1, c1) == DiagramId(sha1, c2) {
      assert Digest.ShortHash(sha1, c1) == DiagramId(sha1, c1)[|IdPrefix|..];
    }
  }

  /** Line 26: the image source. */
  function ImageUrl(token: string): string
  {
    ServerPrefix + token
  }

  /** Lines 23-32: the fragment; its id and image source need no escaping and appear exactly. */
  function RenderHtml(sha1: seq<byte> -> Digest.Sha1Digest, deflate: seq<byte> -> seq<byte>, content: string): (html: string)
    ensures Html.HasAttribute(html, "id", DiagramId(sha1, content))
    ensures Html.HasAttribute(html, "src", ImageUrl(EncodePlantUml(deflate, content)))
  {
    var id := DiagramId(sha1, content);
    var url := ImageUrl(EncodePlantUml(deflate, content));
    var head := "<div class=\"plantuml-diagram\">\n  <div";
    var middle := " class=\"plantuml\">\n    <img";
    var tail := " \n         alt=\"PlantUML Diagram\" \n         loading=\"lazy\" \n"
      + "         style=\"max-width: 100%; height: auto;\" />\n  </div>\n</div>\n";
    IdSafe(sha1, content);
    UrlSafe(deflate, content);
    Html.TwoAttributes(head, "id", id, middle, "src", url, tail);
    head + Html.Attribute("id", id) + middle + Html.Attribute("src", url) + tail
  }

  lemma IdSafe(sha1: seq<byte> -> Digest.Sha1Digest, content: string)
    ensures Html.SafeAttributeValue(DiagramId(sha1, content))
  {
    Digest.ShortHashIsFirstFourBytes(sha1, content);
    Html.SafeConcat(IdPrefix, Digest.ShortHash(sha1, content));
  }

  lemma UrlSafe(deflate: seq<byte> -> seq<byte>, content: string)
    ensures Html.SafeAttributeValue(ImageUrl(EncodePlantUml(deflate, content)))
  {
    TokenIsUnpaddedUrlSafe(deflate(Utf8.Encode(WrapMarkers(content))));
    Html.SafeConcat(ServerPrefix, EncodePlantUml(deflate, content));
  }
}
