/**
 * The `{% mermaid %}` Liquid block of `_plugins/mermaid_plugin.rb`: the body
 * is emitted verbatim (neither stripped nor escaped) inside a `mermaid` div,
 * for the browser-side renderer to pick up. SHA-1 is a parameter.
 */
module MermaidPlugin {
  import opened Common
  import Text
  import Digest
  import Html

  /** The block keeps its stripped markup (lines 6-9), which rendering never reads. */
  datatype Block = MermaidBlock(markup: string)

  /** Lines 5-8: the stored markup has no white space or null at either end. */
  function NewBlock(markup: string): (b: Block)
    ensures b.markup == Text.RubyStrip(markup)
    ensures b.markup == [] || (!Text.IsRubyStripSpace(b.markup[0]) && !Text.IsRubyStripSpace(b.markup[|b.markup| - 1]))
  {
    MermaidBlock(Text.RubyStrip(markup))
  }

  /** Building a block from a block's markup gives the same block: stripping is idempotent. */
  lemma NewBlockIdempotent(markup: string)
    ensures NewBlock(NewBlock(markup).markup) == NewBlock(markup)
  {
    Text.TrimByUntouched(NewBlock(markup).markup, Text.IsRubyStripSpace);
  }

  const IdPrefix: string := "mermaid-"

  /** Line 15: the id hashes the unstripped body. */
  function DiagramId(sha1: seq<byte> -> Digest.Sha1Digest, content: string): string
  {
    IdPrefix + Digest.ShortHash(sha1, content)
  }

  const Head: string := "<div class=\"mermaid-diagram\">\n  <div"
  const Middle: string := " class=\"mermaid\">\n    "
  const Tail: string := "\n  </div>\n</div>\n"

  /** Lines 18-24. */
  function RenderHtml(sha1: seq<byte> -> Digest.Sha1Digest, b: Block, content: string): string
  {
    Head + Html.Attribute("id", DiagramId(sha1, content)) + Middle + content + Tail
  }

  lemma IdSafe(sha1: seq<byte> -> Digest.Sha1Digest, content: string)
    ensures Html.SafeAttributeValue(DiagramId(sha1, content))
  {
    Digest.ShortHashIsFirstFourBytes(sha1, content);
    assert Html.SafeAttributeValue(IdPrefix);
    Html.SafeConcat(IdPrefix, Digest.ShortHash(sha1, content));
  }

  /**
   * The fragment opens the outer `mermaid-diagram` div and the inner div,
   * which carries the id; the body sits verbatim, at a fixed offset, between
   * the inner div's opening and the two closing tags, so it can be read back.
   */
  lemma RenderHtmlShape(sha1: seq<byte> -> Digest.Sha1Digest, b: Block, content: string)
    ensures
      var html := RenderHtml(sha1, b, content);
      var start := |Head| + |Html.Attribute("id", DiagramId(sha1, content))| + |Middle|;
      start + |Tail| <= |html|
      && html[..|Head|] == Head
      && html[start..|html| - |Tail|] == content
      && html[|html| - |Tail|..] == Tail
      && Html.HasAttribute(html, "id", DiagramId(sha1, content))
  {
    IdSafe(sha1, content);
    Html.AttributeFrame(Head, "id", DiagramId(sha1, content), Middle, content, Tail);
  }

  /** The rendered fragment determines the body: different bodies never render alike. */
  lemma RenderHtmlInjective(sha1: seq<byte> -> Digest.Sha1Digest, b: Block, c1: string, c2: string)
    requires RenderHtml(sha1, b, c1) == RenderHtml(sha1, b, c2)
    ensures c1 == c2
  {
    Digest.ShortHashIsFirstFourBytes(sha1, c1);
    Digest.ShortHashIsFirstFourBytes(sha1, c2);
    RenderHtmlShape(sha1, b, c1);
    RenderHtmlShape(sha1, b, c2);
  }

  /** The markup written after the tag name has no influence on the output. */
  lemma RenderIgnoresMarkup(sha1: seq<byte> -> Digest.Sha1Digest, b1: Block, b2: Block, content: string)
    ensures RenderHtml(sha1, b1, content) == RenderHtml(sha1, b2, content)
  {
  }
}
