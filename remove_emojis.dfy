/**
 * The `pre_render` hook of `_plugins/remove_emojis.rb`: before a page or a
 * post that renders to HTML is converted, every code point in the two
 * ranges U+1F300..U+1FAFF and U+2600..U+27BF is deleted from its content.
 */
module RemoveEmojis {
  import opened Common
  import Text

  /** Line 5: the character class of the pattern. */
  predicate IsEmoji(c: char)
  {
    ('\U{1F300}' <= c <= '\U{1FAFF}') || ('\U{2600}' <= c <= '\U{27BF}')
  }

  predicate IsKept(c: char) { !IsEmoji(c) }

  /** Line 10: `content.gsub(EMOJI_REGEX, '')`. */
  function StripEmojis(s: string): (r: string)
    ensures |r| <= |s|
    ensures forall i :: 0 <= i < |r| ==> !IsEmoji(r[i])
  {
    Text.Filter(s, IsKept)
  }

  /** A single character is deleted exactly when it lies in one of the two ranges. */
  lemma StripEmojisChar(c: char)
    ensures StripEmojis([c]) == if IsEmoji(c) then [] else [c]
  {
    assert [c][1..] == [];
  }

  /** Filtering works piece by piece: together with `StripEmojisChar` this says every other character is kept, in order. */
  lemma StripEmojisAppend(s: string, t: string)
    ensures StripEmojis(s + t) == StripEmojis(s) + StripEmojis(t)
  {
    Text.FilterAppend(s, t, IsKept);
  }

  /** Text without emoji is left as it is. */
  lemma StripEmojisNone(s: string)
    requires forall i :: 0 <= i < |s| ==> !IsEmoji(s[i])
    ensures StripEmojis(s) == s
  {
    Text.FilterKeepsAll(s, IsKept);
  }

  lemma StripEmojisIdempotent(s: string)
    ensures StripEmojis(StripEmojis(s)) == StripEmojis(s)
  {
    StripEmojisNone(StripEmojis(s));
  }

  /** The output is as long as the input exactly when nothing was deleted. */
  lemma {:induction false} StripEmojisLength(s: string)
    ensures |StripEmojis(s)| == |s| <==> forall i :: 0 <= i < |s| ==> !IsEmoji(s[i])
    decreases |s|
  {
    if s != [] {
      StripEmojisLength(s[1..]);
      assert StripEmojis(s) == (if IsKept(s[0]) then [s[0]] else []) + StripEmojis(s[1..]);
      if !IsEmoji(s[0]) && forall i :: 0 <= i < |s| - 1 ==> !IsEmoji(s[1..][i]) {
        assert forall i :: 0 <= i < |s| ==> !IsEmoji(s[i]) by {
          forall i | 1 <= i < |s| ensures !IsEmoji(s[i]) { assert s[i] == s[1..][i - 1]; }
        }
      }
    }
  }

  /** The hook is registered for these two kinds of document only (line 7). */
  datatype Kind = Page | Post | OtherDocument

  datatype Document = Document(kind: Kind, outputExt: string, content: Option<string>)

  /** Lines 7-10. */
  function PreRender(doc: Document): (r: Document)
    ensures r.kind == doc.kind && r.outputExt == doc.outputExt
    ensures r.content.Some? <==> doc.content.Some?
  {
    if doc.kind != OtherDocument && doc.outputExt == ".html" && doc.content.Some? then
      doc.(content := Some(StripEmojis(doc.content.value)))
    else doc
  }

  /** Only pages and posts rendered to HTML, with content, are touched, and only their content changes. */
  lemma PreRenderCases(doc: Document)
    ensures doc.kind == OtherDocument || doc.outputExt != ".html" || doc.content == None ==> PreRender(doc) == doc
    ensures doc.kind != OtherDocument && doc.outputExt == ".html" && doc.content.Some? ==>
      PreRender(doc).content == Some(StripEmojis(doc.content.value))
  {
  }

  /** Running the hook twice changes nothing more. */
  lemma PreRenderIdempotent(doc: Document)
    ensures PreRender(PreRender(doc)) == PreRender(doc)
  {
    if doc.content.Some? {
      StripEmojisIdempotent(doc.content.value);
    }
  }
}
