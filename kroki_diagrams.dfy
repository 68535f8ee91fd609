/**
 * The Kroki Liquid blocks of `_plugins/kroki_diagrams.rb`: `{% kroki type %}`
 * and the fixed-type `plantuml`, `graphviz` and `svgbob` blocks. The body is
 * stripped, compressed with zlib, encoded as padded URL-safe base64 and put
 * into a kroki.io image URL. zlib's deflate and SHA-1 are parameters.
 */
module KrokiDiagrams {
  import opened Common
  import Text
  import Utf8
  import Base64
  import Digest
  import Html

  /** The block classes; each keeps the markup written after the tag name. */
  datatype Block =
    | KrokiBlock(markup: string)
    | PlantUmlBlock(markup: string)
    | GraphvizBlock(markup: string)
    | SvgbobBlock(markup: string)

  const DefaultType: string := "plantuml"

  /** Lines 11-12: strip, lower-case, and fall back to "plantuml" when nothing is left. */
  function NormaliseType(markup: string): (t: string)
    ensures t != []
    ensures !Text.IsRubyStripSpace(t[0]) && !Text.IsRubyStripSpace(t[|t| - 1])
    ensures forall i :: 0 <= i < |t| ==> !Text.IsAsciiUpper(t[i]) && t[i] != '\U{212A}' && t[i] != '\U{0130}'
  {
    var stripped := Text.RubyStrip(markup);
    var t := Text.Downcase(stripped);
    if t == [] then DefaultType
    else
      Text.DowncaseEnds(stripped);
      t
  }

  /** An empty or blank markup gives the default; any other gives its stripped lower-case form. */
  lemma NormaliseTypeCases(markup: string)
    ensures Text.RubyStrip(markup) == [] ==> NormaliseType(markup) == DefaultType
    ensures Text.RubyStrip(markup) != [] ==> NormaliseType(markup) == Text.Downcase(Text.RubyStrip(markup))
  {
    if Text.RubyStrip(markup) != [] {
      Text.DowncaseEnds(Text.RubyStrip(markup));
    }
  }

  /** A normalised type is its own normal form. */
  lemma NormaliseTypeIdempotent(markup: string)
    ensures NormaliseType(NormaliseType(markup)) == NormaliseType(markup)
  {
    NormalFormFixed(NormaliseType(markup));
  }

  /** A non-empty lower-case word without white space or null at its ends normalises to itself. */
  lemma NormalFormFixed(t: string)
    requires t != [] && !Text.IsRubyStripSpace(t[0]) && !Text.IsRubyStripSpace(t[|t| - 1])
    requires forall i :: 0 <= i < |t| ==> !Text.IsAsciiUpper(t[i]) && t[i] != '\U{212A}' && t[i] != '\U{0130}'
    ensures NormaliseType(t) == t
  {
    Text.TrimByUntouched(t, Text.IsRubyStripSpace);
    Text.DowncaseLower(t);
  }

  /** Lines 51-67: the subclasses pass a fixed markup to the base constructor. */
  function MarkupPassed(b: Block): string
  {
    match b
    case KrokiBlock(m) => m
    case PlantUmlBlock(_) => "plantuml"
    case GraphvizBlock(_) => "graphviz"
    case SvgbobBlock(_) => "svgbob"
  }

  function DiagramType(b: Block): string
  {
    NormaliseType(MarkupPassed(b))
  }

  /** A lower-case ASCII word is already in normal form. */
  lemma NormaliseWord(w: string)
    requires w != [] && forall i :: 0 <= i < |w| ==> Text.IsAsciiLower(w[i])
    ensures NormaliseType(w) == w
  {
    Text.TrimByUntouched(w, Text.IsRubyStripSpace);
    Text.DowncaseLower(w);
  }

  lemma LowerWord(w: string)
    requires w == "plantuml" || w == "graphviz" || w == "svgbob"
    ensures NormaliseType(w) == w
  {
    assert forall i :: 0 <= i < |w| ==> Text.IsAsciiLower(w[i]);
    NormaliseWord(w);
  }

  /** The fixed-type blocks ignore what is written after the tag name. */
  lemma FixedTypes(m: string)
    ensures DiagramType(PlantUmlBlock(m)) == "plantuml"
    ensures DiagramType(GraphvizBlock(m)) == "graphviz"
    ensures DiagramType(SvgbobBlock(m)) == "svgbob"
  {
    assert MarkupPassed(PlantUmlBlock(m)) == "plantuml";
    LowerWord("plantuml");
    assert MarkupPassed(GraphvizBlock(m)) == "graphviz";
    LowerWord("graphviz");
    assert MarkupPassed(SvgbobBlock(m)) == "svgbob";
    LowerWord("svgbob");
  }

  /** Line 16: the body as hashed and encoded. */
  function Body(content: string): string
  {
    Text.RubyStrip(content)
  }

  /** Line 46: `Base64.urlsafe_encode64(compressed).strip`, where `urlsafe_encode64` is `strict_encode64` followed by `tr('+/', '-_')`. */
  function TokenOf(compressed: seq<byte>): string
  {
    Text.RubyStrip(Base64.Tr(Base64.Encode(Base64.Standard, compressed), "+/", "-_"))
  }

  /** The token is padded RFC 4648 section 5 base64: 4*ceil(n/3) characters, no '+' or '/'. */
  lemma TokenIsUrlSafeBase64(compressed: seq<byte>)
    ensures TokenOf(compressed) == Base64.Encode(Base64.UrlSafe, compressed)
    ensures |TokenOf(compressed)| == 4 * ((|compressed| + 2) / 3)
    ensures forall i :: 0 <= i < |TokenOf(compressed)| ==> TokenOf(compressed)[i] !in "+/"
  {
    var e := Base64.Encode(Base64.UrlSafe, compressed);
    Base64.TrEncodeToUrlSafe(compressed);
    Base64.EncodeChars(Base64.UrlSafe, compressed);
    Text.TrimByUntouched(e, Text.IsRubyStripSpace);
  }

  /** Decoding the token as base64url gives exactly the compressed bytes. */
  lemma TokenDecodes(compressed: seq<byte>)
    ensures Base64.Decode(Base64.UrlSafe, TokenOf(compressed)) == Some(compressed)
  {
    TokenIsUrlSafeBase64(compressed);
    Base64.DecodeEncode(Base64.UrlSafe, compressed);
  }

  /** `encode_for_kroki`: UTF-8 bytes, zlib at level 9, then the token. */
  function EncodeForKroki(deflate: seq<byte> -> seq<byte>, text: string): string
  {
    TokenOf(deflate(Utf8.Encode(text)))
  }

  /** With an inflate that undoes deflate, the token carries exactly the stripped body. */
  lemma EncodeDecodeRoundTrip(deflate: seq<byte> -> seq<byte>, inflate: seq<byte> -> seq<byte>, content: string)
    requires forall b :: inflate(deflate(b)) == b
    ensures
      var token := EncodeForKroki(deflate, Body(content));
      Base64.Decode(Base64.UrlSafe, token).Some?
      && Utf8.Decode(inflate(Base64.Decode(Base64.UrlSafe, token).value)) == Some(Body(content))
  {
    TokenDecodes(deflate(Utf8.Encode(Body(content))));
    Utf8.DecodeEncode(Body(content));
  }

  const IdPrefix: string := "kroki-"

  /** Line 20. */
  function DiagramId(sha1: seq<byte> -> Digest.Sha1Digest, diagramType: string, content: string): string
  {
    IdPrefix + diagramType + "-" + Digest.ShortHash(sha1, Body(content))
  }

  /** The type and the short hash can be read back from an id, so ids agree exactly when both parts do. */
  lemma DiagramIdParts(sha1: seq<byte> -> Digest.Sha1Digest, t1: string, c1: string, t2: string, c2: string)
    ensures DiagramId(sha1, t1, c1) == DiagramId(sha1, t2, c2)
        <==> t1 == t2 && Digest.ShortHash(sha1, Body(c1)) == Digest.ShortHash(sha1, Body(c2))
  {
    Digest.ShortHashIsFirstFourBytes(sha1, Body(c1));
    Digest.ShortHashIsFirstFourBytes(sha1, Body(c2));
    IdSlices(t1, Digest.ShortHash(sha1, Body(c1)));
    IdSlices(t2, Digest.ShortHash(sha1, Body(c2)));
  }

  /** An id with an eight-character hash splits back into the type and the hash. */
  lemma IdSlices(t: string, h: string)
    requires |h| == 8
    ensures
      var id := IdPrefix + t + "-" + h;
      |id| == |t| + 15 && id[6..|id| - 9] == t && id[|id| - 8..] == h
  {
    var id := IdPrefix + t + "-" + h;
    assert id == IdPrefix + (t + ("-" + h));
    assert id[6..] == t + ("-" + h);
    assert (t + ("-" + h))[..|t|] == t;
    assert ("-" + h)[1..] == h;
  }

  const KrokiBase: string := "https://kroki.io/"
  const SvgPath: string := "/svg/"

  /** Line 26. */
  function KrokiUrl(diagramType: string, token: string): string
  {
    KrokiBase + diagramType + SvgPath + token
  }

  /** The URL splits back into the server prefix, the type, the `/svg/` path and the token. */
  lemma KrokiUrlSlices(diagramType: string, token: string)
    ensures
      var url := KrokiUrl(diagramType, token);
      var start := |KrokiBase| + |diagramType| + |SvgPath|;
      start <= |url|
      && url[|KrokiBase|..|KrokiBase| + |diagramType|] == diagramType
      && url[start..] == token
  {
    var pre := KrokiBase + diagramType + SvgPath;
    assert KrokiUrl(diagramType, token) == pre + token;
    assert (pre + token)[|pre|..] == token;
    Html.SliceMiddle(KrokiBase, diagramType, SvgPath + token);
    assert pre + token == KrokiBase + diagramType + (SvgPath + token);
  }

  /** The URL's path names the type and then the token, which decodes to the compressed body. */
  lemma KrokiUrlParts(diagramType: string, compressed: seq<byte>)
    ensures
      var url := KrokiUrl(diagramType, TokenOf(compressed));
      var start := |KrokiBase| + |diagramType| + |SvgPath|;
      start <= |url|
      && url[|KrokiBase|..|KrokiBase| + |diagramType|] == diagramType
      && Base64.Decode(Base64.UrlSafe, url[start..]) == Some(compressed)
  {
    KrokiUrlSlices(diagramType, TokenOf(compressed));
    TokenDecodes(compressed);
  }

  /** Lines 29-38: the fragment, with the capitalised type in the alt text. */
  function RenderHtml(sha1: seq<byte> -> Digest.Sha1Digest, deflate: seq<byte> -> seq<byte>, b: Block, content: string): string
  {
    var t := DiagramType(b);
    HtmlHead + Html.Attribute("id", DiagramId(sha1, t, content)) + HtmlMiddle
    + Html.Attribute("src", KrokiUrl(t, EncodeForKroki(deflate, Body(content)))) + HtmlTail(t)
  }

  const HtmlHead: string := "<div class=\"diagram-container\">\n  <div"
  const HtmlMiddle: string := " class=\"kroki-diagram\">\n    <img"

  function HtmlTail(t: string): string
  {
    " \n         alt=\"" + Text.Capitalize(t) + " Diagram\" \n         loading=\"lazy\" \n"
    + "         style=\"max-width: 100%; height: auto; display: block; margin: 0 auto;\" />\n  </div>\n</div>\n"
  }

  /**
   * The id and the image source appear exactly as attribute values when the
   * type needs no escaping. The type comes from the page's markup and is not
   * escaped, so a type holding a quote would break out of the attribute.
   */
  lemma RenderHtmlAttributes(sha1: seq<byte> -> Digest.Sha1Digest, deflate: seq<byte> -> seq<byte>, b: Block, content: string)
    requires Html.SafeAttributeValue(DiagramType(b))
    ensures Html.HasAttribute(RenderHtml(sha1, deflate, b, content), "id", DiagramId(sha1, DiagramType(b), content))
    ensures Html.HasAttribute(RenderHtml(sha1, deflate, b, content), "src",
                              KrokiUrl(DiagramType(b), EncodeForKroki(deflate, Body(content))))
  {
    var t := DiagramType(b);
    IdSafe(sha1, t, content);
    UrlSafe(t, deflate(Utf8.Encode(Body(content))));
    Html.TwoAttributes(HtmlHead, "id", DiagramId(sha1, t, content), HtmlMiddle,
                       "src", KrokiUrl(t, EncodeForKroki(deflate, Body(content))), HtmlTail(t));
  }

  lemma ConstantsSafe()
    ensures Html.SafeAttributeValue(IdPrefix) && Html.SafeAttributeValue("-")
    ensures Html.SafeAttributeValue(KrokiBase) && Html.SafeAttributeValue(SvgPath)
  {
  }

  lemma IdSafe(sha1: seq<byte> -> Digest.Sha1Digest, t: string, content: string)
    requires Html.SafeAttributeValue(t)
    ensures Html.SafeAttributeValue(DiagramId(sha1, t, content))
  {
    Digest.ShortHashIsFirstFourBytes(sha1, Body(content));
    ConstantsSafe();
    Html.SafeConcat4(IdPrefix, t, "-", Digest.ShortHash(sha1, Body(content)));
  }

  lemma TokenSafe(compressed: seq<byte>)
    ensures Html.SafeAttributeValue(TokenOf(compressed))
  {
    var token := TokenOf(compressed);
    TokenIsUrlSafeBase64(compressed);
    Base64.EncodeChars(Base64.UrlSafe, compressed);
    forall i | 0 <= i < |token|
      ensures token[i] != '"' && token[i] != '<' && token[i] != '>' && token[i] != '&'
    {
      assert Base64.InAlphabet(Base64.UrlSafe, token[i]) || token[i] == '=';
    }
  }

  lemma UrlSafe(t: string, compressed: seq<byte>)
    requires Html.SafeAttributeValue(t)
    ensures Html.SafeAttributeValue(KrokiUrl(t, TokenOf(compressed)))
  {
    TokenSafe(compressed);
    ConstantsSafe();
    Html.SafeConcat4(KrokiBase, t, SvgPath, TokenOf(compressed));
  }
}
