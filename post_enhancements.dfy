/**
 * `assets/js/post-enhancements.js`: the browser-side table of contents,
 * scroll spy, reading time and back-to-top button of a blog post. The DOM
 * is reduced to what these steps read and write: the headings (level, text,
 * id, vertical offset), the TOC links that carry the `active` class and
 * the visibility of the back-to-top button.
 */
module PostEnhancements {
  import Text
  import NewPost

  // ---------------------------------------------------------------------------
  // createSlug (lines 81-88)
  // ---------------------------------------------------------------------------

  /** JavaScript `\w`: ASCII letters, digits and the underscore. */
  predicate IsWordChar(c: char)
  {
    'a' <= c <= 'z' || 'A' <= c <= 'Z' || '0' <= c <= '9' || c == '_'
  }

  /** What `replace(/[^\w\s-]/g, '')` keeps. */
  predicate IsSlugSourceChar(c: char) { IsWordChar(c) || Text.IsJsSpace(c) || c == '-' }

  /** The characters a slug can hold: lower-case letters, digits, '_' and '-'. */
  predicate IsSlugChar(c: char) { 'a' <= c <= 'z' || '0' <= c <= '9' || c == '_' || c == '-' }

  predicate IsDash(c: char) { c == '-' }

  /** Lower-case, drop other characters, dash the whitespace runs, squeeze dashes, trim. */
  function CreateSlug(text: string): string
  {
    var lowered := Text.Downcase(text);
    var kept := Text.Filter(lowered, IsSlugSourceChar);
    var dashed := Text.ReplaceRuns(kept, Text.IsJsSpace, '-');
    var squeezed := Text.ReplaceRuns(dashed, IsDash, '-');
    Text.JsTrim(squeezed)
  }

  /** Letters, digits, '_' and single dashes; unlike `slugify`, edge dashes stay. */
  predicate IsJsSlug(s: string)
  {
    (forall i :: 0 <= i < |s| ==> IsSlugChar(s[i])) && Text.NoDoubled(s, '-')
  }

  /** The slug has no whitespace, no upper case and no "--"; the final `trim` finds nothing to remove. */
  lemma CreateSlugIsJsSlug(text: string)
    ensures IsJsSlug(CreateSlug(text))
    ensures CreateSlug(text) == Text.ReplaceRuns(Text.ReplaceRuns(Text.Filter(Text.Downcase(text), IsSlugSourceChar), Text.IsJsSpace, '-'), IsDash, '-')
  {
    var lowered := Text.Downcase(text);
    var kept := Text.Filter(lowered, IsSlugSourceChar);
    var dashed := Text.ReplaceRuns(kept, Text.IsJsSpace, '-');
    var squeezed := Text.ReplaceRuns(dashed, IsDash, '-');
    Text.ReplaceRunsClears(kept, Text.IsJsSpace, '-');
    Text.ReplaceRunsFrom(kept, Text.IsJsSpace, '-');
    assert forall i :: 0 <= i < |kept| ==> !Text.IsAsciiUpper(kept[i]) by {
      Text.FilterFrom(lowered, IsSlugSourceChar);
    }
    assert forall i :: 0 <= i < |dashed| ==> IsSlugChar(dashed[i]);
    Text.ReplaceRunsFrom(dashed, IsDash, '-');
    Text.ReplaceRunsSqueezes(dashed, IsDash, '-');
    assert forall i :: 0 <= i < |squeezed| ==> IsSlugChar(squeezed[i]);
    Text.TrimByUntouched(squeezed, Text.IsJsSpace);
  }

  /** A slug is its own slug, so `createSlug` is idempotent. */
  lemma CreateSlugFixesSlugs(s: string)
    requires IsJsSlug(s)
    ensures CreateSlug(s) == s
  {
    forall i | 0 <= i < |s|
      ensures !Text.IsAsciiUpper(s[i]) && s[i] != '\U{212A}' && s[i] != '\U{0130}'
      ensures IsSlugSourceChar(s[i]) && !Text.IsJsSpace(s[i]) && (IsDash(s[i]) <==> s[i] == '-')
    {
      assert IsSlugChar(s[i]);
    }
    Text.DowncaseLower(s);
    Text.FilterKeepsAll(s, IsSlugSourceChar);
    Text.ReplaceRunsNone(s, Text.IsJsSpace, '-');
    Text.ReplaceRunsSingles(s, IsDash, '-');
    Text.TrimByUntouched(s, Text.IsJsSpace);
  }

  lemma CreateSlugIdempotent(text: string)
    ensures CreateSlug(CreateSlug(text)) == CreateSlug(text)
  {
    CreateSlugIsJsSlug(text);
    CreateSlugFixesSlugs(CreateSlug(text));
  }

  /**
   * The two slug functions of the site disagree: a browser slug with an
   * underscore or an edge dash is left alone here, while the script's
   * `slugify` removes both.
   */
  lemma SlugFunctionsDiffer(s: string, i: nat)
    requires IsJsSlug(s) && i < |s| && (s[i] == '_' || (s[i] == '-' && (i == 0 || i == |s| - 1)))
    ensures CreateSlug(s) == s
    ensures NewPost.Slugify(s) != s
  {
    CreateSlugFixesSlugs(s);
    NewPost.SlugifyIsSlug(s);
    NotRubySlug(s, i);
  }

  /** An underscore anywhere, or a dash at either end, is not in a Ruby slug. */
  lemma NotRubySlug(s: string, i: nat)
    requires i < |s| && (s[i] == '_' || (s[i] == '-' && (i == 0 || i == |s| - 1)))
    ensures !NewPost.IsSlug(s)
  {
    if s[i] == '_' {
      assert !NewPost.IsSlugChar(s[i]);
    } else {
      assert s[0] == '-' || s[|s| - 1] == '-';
    }
  }

  // ---------------------------------------------------------------------------
  // Heading ids (lines 61-64)
  // ---------------------------------------------------------------------------

  /** A heading element: level from its tag name, text content, id ("" when absent), offset from the page top. */
  datatype Heading = Heading(level: nat, text: string, id: string, offsetTop: int)

  /** The id given to the heading at `index` that has none. */
  function GeneratedId(text: string, index: nat): string
  {
    CreateSlug(text) + "-" + Text.NatToString(index)
  }

  /** Each heading keeps a non-empty id; one without gets `GeneratedId`. */
  function WithId(h: Heading, index: nat): (r: Heading)
    ensures r.level == h.level && r.text == h.text && r.offsetTop == h.offsetTop
    ensures r.id == (if h.id == "" then GeneratedId(h.text, index) else h.id)
    ensures r.id != ""
  {
    if h.id == "" then h.(id := GeneratedId(h.text, index)) else h
  }

  lemma DashThenDigits(a: string, d: string)
    ensures |a + "-" + d| == |a| + 1 + |d|
    ensures (a + "-" + d)[|a|] == '-'
    ensures forall i :: 0 <= i < |d| ==> (a + "-" + d)[|a| + 1 + i] == d[i]
  {
  }

  lemma DigitsAfterLastDash(a: string, d1: string, b: string, d2: string)
    requires forall i :: 0 <= i < |d1| ==> Text.IsDigit(d1[i])
    requires forall i :: 0 <= i < |d2| ==> Text.IsDigit(d2[i])
    requires |d1| <= |d2|
    requires a + "-" + d1 == b + "-" + d2
    ensures d1 == d2
  {
    var x := a + "-" + d1;
    var y := b + "-" + d2;
    if |d1| < |d2| {
      DashThenDigits(a, d1);
      DashThenDigits(b, d2);
      assert false;
    }
    assert d1 == x[|x| - |d1|..];
    assert d2 == y[|y| - |d2|..];
  }

  /** Generated ids of two different positions differ, whatever the heading texts: the digits after the last dash spell the position. */
  lemma GeneratedIdsDistinct(t1: string, i: nat, t2: string, j: nat)
    requires i != j
    ensures GeneratedId(t1, i) != GeneratedId(t2, j)
  {
    var d1 := Text.NatToString(i);
    var d2 := Text.NatToString(j);
    if GeneratedId(t1, i) == GeneratedId(t2, j) {
      if |d1| <= |d2| {
        DigitsAfterLastDash(CreateSlug(t1), d1, CreateSlug(t2), d2);
      } else {
        DigitsAfterLastDash(CreateSlug(t2), d2, CreateSlug(t1), d1);
      }
      Text.NatToStringInjective(i, j);
    }
  }

  // ---------------------------------------------------------------------------
  // buildTOCHTML (lines 107-137)
  // ---------------------------------------------------------------------------

  /** The pieces the TOC is built from: list openings, list closings and one link per heading. */
  datatype TocItem = Open | Close | Link(id: string, level: nat, index: nat, text: string)

  /** Lines 124-130: one list item holding the link to a heading. */
  function LinkHtml(id: string, level: nat, index: nat, text: string): string
  {
    "\n        <li>\n          <a href=\"#" + id + "\" class=\"toc-link toc-level-" + Text.NatToString(level)
    + "\" data-index=\"" + Text.NatToString(index) + "\">\n            " + text
    + "\n          </a>\n        </li>\n      "
  }

  function ItemHtml(item: TocItem): string
  {
    match item
    case Open => "<ul>"
    case Close => "</ul>"
    case Link(id, level, index, text) => LinkHtml(id, level, index, text)
  }

  /** The strings one after another. */
  function Concat(parts: seq<string>): string
    decreases |parts|
  {
    if parts == [] then "" else Concat(parts[..|parts| - 1]) + parts[|parts| - 1]
  }

  lemma {:induction false} ConcatAppend(a: seq<string>, b: seq<string>)
    ensures Concat(a + b) == Concat(a) + Concat(b)
    decreases |b|
  {
    if b == [] {
      assert a + b == a;
    } else {
      var b' := b[..|b| - 1];
      ConcatAppend(a, b');
      assert (a + b)[..|a + b| - 1] == a + b';
      assert (a + b)[|a + b| - 1] == b[|b| - 1];
    }
  }

  /** The markup `html` gives each piece, one after another. */
  function RenderWith(items: seq<TocItem>, html: TocItem -> string): string
  {
    Concat(seq(|items|, k requires 0 <= k < |items| => html(items[k])))
  }

  lemma RenderWithAppend(a: seq<TocItem>, b: seq<TocItem>, html: TocItem -> string)
    ensures RenderWith(a + b, html) == RenderWith(a, html) + RenderWith(b, html)
  {
    var pa := seq(|a|, k requires 0 <= k < |a| => html(a[k]));
    var pb := seq(|b|, k requires 0 <= k < |b| => html(b[k]));
    assert seq(|a + b|, k requires 0 <= k < |a + b| => html((a + b)[k])) == pa + pb;
    ConcatAppend(pa, pb);
  }

  lemma RenderWithSingle(item: TocItem, html: TocItem -> string)
    ensures RenderWith([item], html) == html(item)
  {
    var p := seq(1, k requires 0 <= k < 1 => html([item][k]));
    assert p == [html(item)];
    assert p[..0] == [];
    assert Concat(p) == Concat(p[..0]) + p[0];
  }

  lemma {:induction false} RenderWithRepeated(item: TocItem, n: nat, html: TocItem -> string)
    ensures RenderWith(seq(n, _ => item), html) == Repeat(html(item), n)
    decreases n
  {
    if n > 0 {
      RenderWithRepeated(item, n - 1, html);
      assert seq(n, _ => item) == seq(n - 1, _ => item) + [item];
      RenderWithAppend(seq(n - 1, _ => item), [item], html);
      RenderWithSingle(item, html);
    } else {
      assert seq(n, _ => item) == [];
    }
  }

  /** The markup of the pieces, in order. */
  function RenderItems(items: seq<TocItem>): string
  {
    RenderWith(items, ItemHtml)
  }

  lemma RenderItemsAppend(a: seq<TocItem>, b: seq<TocItem>)
    ensures RenderItems(a + b) == RenderItems(a) + RenderItems(b)
  {
    RenderWithAppend(a, b, ItemHtml);
  }

  lemma RenderSingle(item: TocItem)
    ensures RenderItems([item]) == ItemHtml(item)
  {
    RenderWithSingle(item, ItemHtml);
  }

  /** JavaScript `String.prototype.repeat`. */
  function Repeat(s: string, n: nat): string
  {
    if n == 0 then "" else Repeat(s, n - 1) + s
  }

  /** Lines 118-122: the openings or closings that move the nesting from one level to the next. */
  function LevelChange(from: nat, to: nat): (r: seq<TocItem>)
    ensures |r| == if to >= from then to - from else from - to
    ensures forall k :: 0 <= k < |r| ==> r[k] == if to > from then Open else Close
  {
    if to > from then seq(to - from, _ => Open) else seq(from - to, _ => Close)
  }

  lemma RenderLevelChange(from: nat, to: nat)
    ensures RenderItems(LevelChange(from, to))
         == if to > from then Repeat("<ul>", to - from) else if to < from then Repeat("</ul>", from - to) else ""
  {
    if to > from {
      RenderWithRepeated(Open, to - from, ItemHtml);
      assert ItemHtml(Open) == "<ul>";
    } else {
      RenderWithRepeated(Close, from - to, ItemHtml);
      assert ItemHtml(Close) == "</ul>";
    }
  }

  /** The nesting level before heading `n` is handled. */
  function LevelBefore(hs: seq<Heading>, n: nat): nat
    requires 0 < |hs| && n <= |hs|
  {
    if n == 0 then hs[0].level else hs[n - 1].level
  }

  /** The pieces emitted for the first `n` headings, after the opening `<ul>`. */
  function ItemsUpTo(hs: seq<Heading>, n: nat): seq<TocItem>
    requires 0 < |hs| && n <= |hs|
    decreases n
  {
    if n == 0 then [Open]
    else ItemsUpTo(hs, n - 1) + LevelChange(LevelBefore(hs, n - 1), hs[n - 1].level)
         + [Link(hs[n - 1].id, hs[n - 1].level, n - 1, hs[n - 1].text)]
  }

  /** All pieces of the TOC: none without headings, else the items and a final `</ul>`. */
  function TocItems(hs: seq<Heading>): seq<TocItem>
  {
    if hs == [] then [] else ItemsUpTo(hs, |hs|) + [Close]
  }

  function CountOpen(items: seq<TocItem>): nat
  {
    if items == [] then 0 else CountOpen(items[..|items| - 1]) + (if items[|items| - 1].Open? then 1 else 0)
  }

  function CountClose(items: seq<TocItem>): nat
  {
    if items == [] then 0 else CountClose(items[..|items| - 1]) + (if items[|items| - 1].Close? then 1 else 0)
  }

  /** The links among the pieces, in order. */
  function Links(items: seq<TocItem>): (r: seq<TocItem>)
    ensures forall k :: 0 <= k < |r| ==> r[k].Link?
  {
    if items == [] then []
    else Links(items[..|items| - 1]) + (if items[|items| - 1].Link? then [items[|items| - 1]] else [])
  }

  lemma {:induction false} CountsAppend(a: seq<TocItem>, b: seq<TocItem>)
    ensures CountOpen(a + b) == CountOpen(a) + CountOpen(b)
    ensures CountClose(a + b) == CountClose(a) + CountClose(b)
    ensures Links(a + b) == Links(a) + Links(b)
    decreases |b|
  {
    if b != [] {
      var b' := b[..|b| - 1];
      CountsAppend(a, b');
      var last := b[|b| - 1];
      assert (a + b)[..|a + b| - 1] == a + b';
      assert (a + b)[|a + b| - 1] == last;
      assert CountOpen(a + b) == CountOpen(a + b') + (if last.Open? then 1 else 0);
      assert CountClose(a + b) == CountClose(a + b') + (if last.Close? then 1 else 0);
      assert Links(a + b) == Links(a + b') + (if last.Link? then [last] else []);
      assert Links(b) == Links(b') + (if last.Link? then [last] else []);
    } else {
      assert a + b == a;
    }
  }

  lemma {:induction false} CountsLevelChange(from: nat, to: nat)
    ensures CountOpen(LevelChange(from, to)) == if to > from then to - from else 0
    ensures CountClose(LevelChange(from, to)) == if to < from then from - to else 0
    ensures Links(LevelChange(from, to)) == []
    decreases if to >= from then to - from else from - to
  {
    var r := LevelChange(from, to);
    if r != [] {
      if to > from {
        CountsLevelChange(from, to - 1);
        assert r[..|r| - 1] == LevelChange(from, to - 1);
      } else {
        CountsLevelChange(from, to + 1);
        assert r[..|r| - 1] == LevelChange(from, to + 1);
      }
    }
  }

  /** A single piece counts only for its own kind. */
  lemma CountsSingle(item: TocItem)
    ensures CountOpen([item]) == (if item.Open? then 1 else 0)
    ensures CountClose([item]) == (if item.Close? then 1 else 0)
    ensures Links([item]) == (if item.Link? then [item] else [])
  {
    assert [item][..0] == [];
  }

  /** The link of heading `k`, as line 126 writes it. */
  function LinkOf(hs: seq<Heading>, k: nat): TocItem
    requires k < |hs|
  {
    Link(hs[k].id, hs[k].level, k, hs[k].text)
  }

  lemma ItemsUpToStep(hs: seq<Heading>, n: nat)
    requires 0 < n <= |hs|
    ensures ItemsUpTo(hs, n) == ItemsUpTo(hs, n - 1) + LevelChange(LevelBefore(hs, n - 1), hs[n - 1].level) + [LinkOf(hs, n - 1)]
  {
  }

  /** After `n` headings the openings exceed the closings by one plus the rise from the first level to the current one. */
  lemma {:induction false} ItemsUpToCounts(hs: seq<Heading>, n: nat)
    requires 0 < |hs| && n <= |hs|
    ensures CountOpen(ItemsUpTo(hs, n)) + hs[0].level == 1 + CountClose(ItemsUpTo(hs, n)) + LevelBefore(hs, n)
    decreases n
  {
    if n == 0 {
      CountsStart(hs);
    } else {
      CountsStep(hs, n);
      ItemsUpToCounts(hs, n - 1);
      assert LevelBefore(hs, n) == hs[n - 1].level;
    }
  }

  /** Before any heading there is the one opening `<ul>`. */
  lemma CountsStart(hs: seq<Heading>)
    requires 0 < |hs|
    ensures CountOpen(ItemsUpTo(hs, 0)) == 1 && CountClose(ItemsUpTo(hs, 0)) == 0
  {
    CountsSingle(Open);
  }

  /** Heading `n - 1` adds one opening per level it rises and one closing per level it falls, so the net change is the rise. */
  lemma CountsStep(hs: seq<Heading>, n: nat)
    requires 0 < n <= |hs|
    ensures CountOpen(ItemsUpTo(hs, n)) + CountClose(ItemsUpTo(hs, n - 1)) + LevelBefore(hs, n - 1)
      == CountOpen(ItemsUpTo(hs, n - 1)) + CountClose(ItemsUpTo(hs, n)) + hs[n - 1].level
  {
    var pre := ItemsUpTo(hs, n - 1);
    var ch := LevelChange(LevelBefore(hs, n - 1), hs[n - 1].level);
    var link := LinkOf(hs, n - 1);
    ItemsUpToStep(hs, n);
    CountsAppend(pre, ch);
    CountsAppend(pre + ch, [link]);
    CountsLevelChange(LevelBefore(hs, n - 1), hs[n - 1].level);
    CountsSingle(link);
  }

  lemma LinksStep(hs: seq<Heading>, n: nat)
    requires 0 < n <= |hs|
    ensures Links(ItemsUpTo(hs, n)) == Links(ItemsUpTo(hs, n - 1)) + [LinkOf(hs, n - 1)]
  {
    var pre := ItemsUpTo(hs, n - 1);
    var ch := LevelChange(LevelBefore(hs, n - 1), hs[n - 1].level);
    var link := LinkOf(hs, n - 1);
    ItemsUpToStep(hs, n);
    CountsAppend(pre, ch);
    CountsAppend(pre + ch, [link]);
    CountsLevelChange(LevelBefore(hs, n - 1), hs[n - 1].level);
    CountsSingle(link);
  }

  /** The links among the first `n` headings' pieces are theirs, in order. */
  lemma {:induction false} ItemsUpToLinks(hs: seq<Heading>, n: nat)
    requires 0 < |hs| && n <= |hs|
    ensures |Links(ItemsUpTo(hs, n))| == n
    ensures forall k :: 0 <= k < n ==> Links(ItemsUpTo(hs, n))[k] == LinkOf(hs, k)
    decreases n
  {
    if n == 0 {
      CountsSingle(Open);
    } else {
      ItemsUpToLinks(hs, n - 1);
      LinksStep(hs, n);
      var before, links := Links(ItemsUpTo(hs, n - 1)), Links(ItemsUpTo(hs, n));
      forall k | 0 <= k < n ensures links[k] == LinkOf(hs, k) {
        if k < n - 1 {
          assert links[k] == before[k];
        }
      }
    }
  }

  /** Openings minus closings is the last heading level minus the first: the lists balance only when they are equal. */
  lemma TocNesting(hs: seq<Heading>)
    requires hs != []
    ensures CountOpen(TocItems(hs)) + hs[0].level == CountClose(TocItems(hs)) + hs[|hs| - 1].level
  {
    ItemsUpToCounts(hs, |hs|);
    CountsAppend(ItemsUpTo(hs, |hs|), [Close]);
    CountsSingle(Close);
  }

  /** One link per heading, in heading order, each carrying its position as data-index and the heading's id. */
  lemma TocLinks(hs: seq<Heading>)
    ensures |Links(TocItems(hs))| == |hs|
    ensures forall k :: 0 <= k < |hs| ==> Links(TocItems(hs))[k] == Link(hs[k].id, hs[k].level, k, hs[k].text)
  {
    if hs != [] {
      ItemsUpToLinks(hs, |hs|);
      CountsAppend(ItemsUpTo(hs, |hs|), [Close]);
      CountsSingle(Close);
    }
  }

  /** No headings, no TOC markup. */
  lemma TocEmpty()
    ensures RenderItems(TocItems([])) == ""
  {
  }

  /** Rendering the pieces of one more heading appends its level change and its link. */
  lemma RenderStep(hs: seq<Heading>, n: nat)
    requires 0 <= n < |hs|
    ensures RenderItems(ItemsUpTo(hs, n + 1))
         == RenderItems(ItemsUpTo(hs, n)) + RenderItems(LevelChange(LevelBefore(hs, n), hs[n].level))
            + LinkHtml(hs[n].id, hs[n].level, n, hs[n].text)
  {
    var ch := LevelChange(LevelBefore(hs, n), hs[n].level);
    ItemsUpToStep(hs, n + 1);
    RenderItemsAppend(ItemsUpTo(hs, n), ch);
    RenderItemsAppend(ItemsUpTo(hs, n) + ch, [LinkOf(hs, n)]);
    RenderSingle(LinkOf(hs, n));
  }

  /** The first and last pieces of a non-empty TOC. */
  lemma RenderTocEnds(hs: seq<Heading>)
    requires 0 < |hs|
    ensures RenderItems(ItemsUpTo(hs, 0)) == "<ul>"
    ensures RenderItems(TocItems(hs)) == RenderItems(ItemsUpTo(hs, |hs|)) + "</ul>"
  {
    RenderSingle(Open);
    RenderItemsAppend(ItemsUpTo(hs, |hs|), [Close]);
    RenderSingle(Close);
  }

  /** Lines 118-130: the markup one heading adds, given the level of the heading before it. */
  method AppendHeading(html: string, currentLevel: nat, h: Heading, index: nat) returns (r: string)
    ensures r == html + RenderItems(LevelChange(currentLevel, h.level)) + LinkHtml(h.id, h.level, index, h.text)
  {
    RenderLevelChange(currentLevel, h.level);
    r := html;
    if h.level > currentLevel {
      r := r + Repeat("<ul>", h.level - currentLevel);
    } else if h.level < currentLevel {
      r := r + Repeat("</ul>", currentLevel - h.level);
    }
    r := r + LinkHtml(h.id, h.level, index, h.text);
  }

  /** The loop of lines 110-136, which appends to `html` and tracks `currentLevel`. */
  method BuildTocHtml(hs: seq<Heading>) returns (html: string)
    ensures html == RenderItems(TocItems(hs))
  {
    if |hs| == 0 {
      return "";
    }
    RenderTocEnds(hs);
    html := "<ul>";
    var currentLevel := hs[0].level;
    var i := 0;
    while i < |hs|
      invariant 0 <= i <= |hs|
      invariant currentLevel == LevelBefore(hs, i)
      invariant html == RenderItems(ItemsUpTo(hs, i))
    {
      RenderStep(hs, i);
      html := AppendHeading(html, currentLevel, hs[i], i);
      currentLevel := hs[i].level;
      i := i + 1;
    }
    html := html + "</ul>";
  }

  // ---------------------------------------------------------------------------
  // calculateReadingTime (lines 179-192)
  // ---------------------------------------------------------------------------

  /** `s.split(/\s+/)`: the pieces between whitespace runs, with an empty piece before a leading run or after a trailing one. */
  function SplitWords(s: string): (words: seq<string>)
    ensures |words| >= 1
    ensures forall k, i :: 0 <= k < |words| && 0 <= i < |words[k]| ==> !Text.IsJsSpace(words[k][i])
    decreases |s|
  {
    if s == [] then [[]]
    else if Text.IsJsSpace(s[0]) then [[]] + SplitWords(Text.DropWhile(s[1..], Text.IsJsSpace))
    else
      var rest := SplitWords(s[1..]);
      [[s[0]] + rest[0]] + rest[1..]
  }

  /** Splitting a string with no whitespace at either end gives only non-empty words. */
  lemma {:induction false} SplitWordsNonEmpty(s: string)
    requires s != [] && !Text.IsJsSpace(s[0]) && !Text.IsJsSpace(s[|s| - 1])
    ensures forall k :: 0 <= k < |SplitWords(s)| ==> SplitWords(s)[k] != []
    decreases |s|
  {
    var t := s[1..];
    if t != [] {
      var rest := SplitWords(t);
      if Text.IsJsSpace(t[0]) {
        var next := Text.DropWhile(t[1..], Text.IsJsSpace);
        SkipSpaceRun(t, s[|s| - 1]);
        SplitWordsNonEmpty(next);
        SplitWordsSpaceStart(t);
        forall k | 1 <= k < |rest| ensures rest[k] != [] {
          assert |rest[k]| == |SplitWords(next)[k - 1]|;
        }
      } else {
        SplitWordsNonEmpty(t);
      }
      SplitWordsWordStart(s);
      var words := SplitWords(s);
      forall k | 0 <= k < |words| ensures words[k] != [] {
        if k > 0 {
          assert |words[k]| == |rest[k]|;
        }
      }
    }
  }

  /** A string starting with a word has as many pieces as its tail, the first non-empty and the others as long as the tail's. */
  lemma SplitWordsWordStart(s: string)
    requires s != [] && !Text.IsJsSpace(s[0])
    ensures |SplitWords(s)| == |SplitWords(s[1..])| && SplitWords(s)[0] != []
    ensures forall k :: 1 <= k < |SplitWords(s)| ==> |SplitWords(s)[k]| == |SplitWords(s[1..])[k]|
  {
  }

  /** A string starting with white space has an empty piece, then pieces as long as those after the run. */
  lemma SplitWordsSpaceStart(t: string)
    requires t != [] && Text.IsJsSpace(t[0])
    ensures |SplitWords(t)| == 1 + |SplitWords(Text.DropWhile(t[1..], Text.IsJsSpace))|
    ensures forall k :: 1 <= k < |SplitWords(t)| ==> |SplitWords(t)[k]| == |SplitWords(Text.DropWhile(t[1..], Text.IsJsSpace))[k - 1]|
  {
  }

  /** After a whitespace run inside `t`, whose last character is the non-space `last`, something remains that ends with `last`. */
  lemma SkipSpaceRun(t: string, last: char)
    requires |t| >= 1 && Text.IsJsSpace(t[0]) && t[|t| - 1] == last && !Text.IsJsSpace(last)
    ensures var next := Text.DropWhile(t[1..], Text.IsJsSpace);
      next != [] && !Text.IsJsSpace(next[0]) && next[|next| - 1] == last
  {
    var u := t[1..];
    assert |t| >= 2;
    assert !Text.IsJsSpace(u[|u| - 1]);
  }

  /**
   * The pieces are the text's whitespace-separated runs, in order: joined by single
   * spaces they give the text with each whitespace run squeezed to one space.
   */
  lemma {:induction false} SplitWordsJoin(s: string)
    ensures Text.Join(SplitWords(s), " ") == Text.ReplaceRuns(s, Text.IsJsSpace, ' ')
    decreases |s|
  {
    if s != [] {
      if Text.IsJsSpace(s[0]) {
        var next := Text.DropWhile(s[1..], Text.IsJsSpace);
        assert Text.DropWhile(s, Text.IsJsSpace) == next;
        SplitWordsJoin(next);
        Text.JoinCons([], SplitWords(next), " ");
      } else {
        SplitWordsJoin(s[1..]);
        Text.JoinPrepend([s[0]], SplitWords(s[1..]), " ");
      }
    }
  }

  /** Lines 186-188: the number of pieces of the trimmed text split at whitespace runs. */
  function WordCount(text: string): (n: nat)
    ensures n >= 1
  {
    |SplitWords(Text.JsTrim(text))|
  }

  /** Lines 187-189: `Math.ceil(wordCount / 200)`. */
  function ReadingMinutes(wordCount: nat): nat
  {
    (wordCount + 199) / 200
  }

  /** The minutes are the least whole number covering the words at 200 a minute. */
  lemma ReadingMinutesIsCeiling(wordCount: nat)
    ensures ReadingMinutes(wordCount) * 200 >= wordCount
    ensures ReadingMinutes(wordCount) == 0 || (ReadingMinutes(wordCount) - 1) * 200 < wordCount
  {
  }

  /** Every text reads in at least a minute, even an empty one, whose split gives one empty piece. */
  lemma ReadingTimeAtLeastOne(text: string)
    ensures ReadingMinutes(WordCount(text)) >= 1
    ensures Text.JsTrim(text) == "" ==> WordCount(text) == 1
  {
  }

  /** For text with something besides whitespace, every counted word is non-empty and whitespace-free. */
  lemma WordsAreWords(text: string)
    requires Text.JsTrim(text) != ""
    ensures forall k :: 0 <= k < |SplitWords(Text.JsTrim(text))| ==> SplitWords(Text.JsTrim(text))[k] != []
  {
    SplitWordsNonEmpty(Text.JsTrim(text));
  }

  /** Line 191. */
  function ReadingTimeLabel(text: string): string
  {
    Text.NatToString(ReadingMinutes(WordCount(text))) + " min"
  }

  // ---------------------------------------------------------------------------
  // Scroll spy and back to top (lines 235-265, 305-316)
  // ---------------------------------------------------------------------------

  /** Line 236: the scroll position is taken 120 pixels below the top of the viewport. */
  const ScrollSpyOffset: int := 120

  /** Line 309. */
  const ShowThreshold: int := 300

  /** Lines 240-246: the last heading at or above the position, searched from the end; -1 when none is. */
  method FindActiveIndex(hs: seq<Heading>, scrollPosition: int) returns (activeIndex: int)
    ensures -1 <= activeIndex < |hs|
    ensures activeIndex >= 0 ==> hs[activeIndex].offsetTop <= scrollPosition
    ensures forall j :: activeIndex < j < |hs| ==> hs[j].offsetTop > scrollPosition
  {
    activeIndex := -1;
    var i := |hs| - 1;
    while i >= 0
      invariant -1 <= i < |hs|
      invariant forall j :: i < j < |hs| ==> hs[j].offsetTop > scrollPosition
    {
      if hs[i].offsetTop <= scrollPosition {
        activeIndex := i;
        break;
      }
      i := i - 1;
    }
  }

  /** The page state the scroll handlers read and change. */
  /** Lines 61-65: every heading without an id gets the generated one, in document order. */
  method AssignIds(found: seq<Heading>) returns (hs: seq<Heading>)
    ensures |hs| == |found|
    ensures forall k :: 0 <= k < |found| ==> hs[k] == WithId(found[k], k)
  {
    hs := found;
    var index := 0;
    while index < |hs|
      invariant 0 <= index <= |hs| == |found|
      invariant forall k :: 0 <= k < index ==> hs[k] == WithId(found[k], k)
      invariant forall k :: index <= k < |found| ==> hs[k] == found[k]
    {
      // `WithId` generates the id only where the heading has none.
      var heading := WithId(hs[index], index);
      hs := hs[index := heading];
      index := index + 1;
    }
  }

  class PostEnhancements {
    var headings: seq<Heading>
    var currentActiveIndex: int
    /** How many `.toc-link` elements the TOC holds; their data-index runs from 0. */
    var tocLinkCount: nat
    /** The data-index values of the links carrying the `active` class. */
    var activeLinks: set<nat>
    var tocHtml: string
    var tocHidden: bool
    var hasBackToTop: bool
    var backToTopVisible: bool

    /** Lines 7-16. */
    constructor(hasBackToTop: bool)
      ensures headings == [] && currentActiveIndex == -1 && tocLinkCount == 0 && activeLinks == {}
      ensures tocHtml == "" && !tocHidden && this.hasBackToTop == hasBackToTop && !backToTopVisible
    {
      headings := [];
      currentActiveIndex := -1;
      tocLinkCount := 0;
      activeLinks := {};
      tocHtml := "";
      tocHidden := false;
      this.hasBackToTop := hasBackToTop;
      backToTopVisible := false;
    }

    /** Lines 46-76: take the headings, give each missing id, and build the TOC, which replaces every link and so leaves none active; hide the sidebar when there are none. */
    method GenerateToc(found: seq<Heading>)
      modifies this
      ensures |headings| == |found|
      ensures forall k :: 0 <= k < |found| ==> headings[k] == WithId(found[k], k)
      ensures found == [] ==> tocHidden && tocHtml == old(tocHtml) && tocLinkCount == old(tocLinkCount)
      ensures found != [] ==> tocHidden == old(tocHidden) && tocHtml == RenderItems(TocItems(headings)) && tocLinkCount == |found|
      ensures found == [] ==> activeLinks == old(activeLinks)
      ensures found != [] ==> activeLinks == {}
      ensures currentActiveIndex == old(currentActiveIndex)
      ensures hasBackToTop == old(hasBackToTop) && backToTopVisible == old(backToTopVisible)
    {
      headings := found;
      if |headings| == 0 {
        tocHidden := true;
        return;
      }
      headings := AssignIds(found);
      tocHtml := BuildTocHtml(headings);
      tocLinkCount := |headings|;
      // Replacing the TOC's innerHTML drops every link that carried `active`.
      activeLinks := {};
    }

    /** Lines 235-265: find the active heading; only when it changed, clear every link and mark the one with that data-index. */
    method UpdateActiveTocItem(scrollY: int)
      modifies this
      ensures -1 <= currentActiveIndex < |headings|
      ensures currentActiveIndex >= 0 ==> headings[currentActiveIndex].offsetTop <= scrollY + ScrollSpyOffset
      ensures forall j :: currentActiveIndex < j < |headings| ==> headings[j].offsetTop > scrollY + ScrollSpyOffset
      ensures currentActiveIndex == old(currentActiveIndex) ==> activeLinks == old(activeLinks)
      ensures currentActiveIndex != old(currentActiveIndex) ==>
        activeLinks == if 0 <= currentActiveIndex < tocLinkCount then {currentActiveIndex as nat} else {}
      ensures headings == old(headings) && tocLinkCount == old(tocLinkCount) && tocHtml == old(tocHtml)
      ensures tocHidden == old(tocHidden) && hasBackToTop == old(hasBackToTop) && backToTopVisible == old(backToTopVisible)
    {
      var scrollPosition := scrollY + ScrollSpyOffset;
      var activeIndex := FindActiveIndex(headings, scrollPosition);
      if activeIndex != currentActiveIndex {
        currentActiveIndex := activeIndex;
        activeLinks := {};
        if activeIndex >= 0 && activeIndex < tocLinkCount {
          activeLinks := activeLinks + {activeIndex as nat};
        }
      }
    }

    /** Lines 305-316: without a button nothing happens; otherwise it is shown exactly when the page is scrolled past 300 pixels. */
    method UpdateBackToTopVisibility(scrollY: int)
      modifies this
      ensures hasBackToTop ==> backToTopVisible == (scrollY > ShowThreshold)
      ensures !hasBackToTop ==> backToTopVisible == old(backToTopVisible)
      ensures hasBackToTop == old(hasBackToTop) && headings == old(headings) && currentActiveIndex == old(currentActiveIndex)
      ensures activeLinks == old(activeLinks) && tocLinkCount == old(tocLinkCount) && tocHtml == old(tocHtml) && tocHidden == old(tocHidden)
    {
      if !hasBackToTop {
        return;
      }
      if scrollY > ShowThreshold {
        backToTopVisible := true;
      } else {
        backToTopVisible := false;
      }
    }
  }
}
