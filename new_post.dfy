/**
 * `scripts/new_post.rb`: the command-line generator of a new Jekyll post.
 * Options fill a settings record; the post's file name is the date and a
 * slug of the title; the content is a template whose placeholders are
 * replaced one after another. The file system is a parameter: the set of
 * existing paths and a map from template paths to their text.
 */
module NewPost {
  import opened Common
  import Text

  // ---------------------------------------------------------------------------
  // slugify (lines 154-160)
  // ---------------------------------------------------------------------------

  /** What `gsub(/[^a-z0-9\s-]/, '')` keeps. */
  predicate IsSlugSourceChar(c: char)
  {
    'a' <= c <= 'z' || '0' <= c <= '9' || Text.IsRubyRegexSpace(c) || c == '-'
  }

  predicate IsSlugChar(c: char) { 'a' <= c <= 'z' || '0' <= c <= '9' || c == '-' }

  predicate IsDash(c: char) { c == '-' }

  /**
   * `gsub(/^-|-$/, '')`: deletes every '-' that starts a line (at the start
   * of the string or after a line feed) or ends one (before a line feed or
   * at the end of the string). `atLineStart` says whether `s` starts a line.
   */
  function DropLineEdgeDashes(s: string, atLineStart: bool): (r: string)
    ensures |r| <= |s|
    decreases |s|
  {
    if s == [] then []
    else
      var edge := s[0] == '-' && (atLineStart || |s| == 1 || s[1] == '\n');
      (if edge then [] else [s[0]]) + DropLineEdgeDashes(s[1..], s[0] == '\n')
  }

  /** On a single line, the edge dashes are at most the first character (when it starts a line) and the last. */
  function TrimEdgeDashes(s: string, atLineStart: bool): (r: string)
  {
    var a := if atLineStart && s != [] && s[0] == '-' then s[1..] else s;
    if a != [] && a[|a| - 1] == '-' then a[..|a| - 1] else a
  }

  /** One step of `DropLineEdgeDashes` when the second character does not end the line. */
  lemma DropLineEdgeDashesStep(s: string, atLineStart: bool)
    requires |s| >= 2 && s[1] != '\n'
    ensures DropLineEdgeDashes(s, atLineStart)
         == (if s[0] == '-' && atLineStart then [] else [s[0]]) + DropLineEdgeDashes(s[1..], s[0] == '\n')
  {
  }

  lemma {:induction false} DropLineEdgeDashesOneLine(s: string, atLineStart: bool)
    requires forall i :: 0 <= i < |s| ==> s[i] != '\n'
    ensures DropLineEdgeDashes(s, atLineStart) == TrimEdgeDashes(s, atLineStart)
    decreases |s|
  {
    if |s| >= 2 {
      assert s[0] != '\n' && s[1] != '\n';
      DropLineEdgeDashesOneLine(s[1..], false);
      DropLineEdgeDashesStep(s, atLineStart);
      TrimEdgeDashesStep(s, atLineStart);
    }
  }

  /** Trimming a line of two or more characters: its first character is dropped only as a starting dash, and the rest is trimmed at its end. */
  lemma TrimEdgeDashesStep(s: string, atLineStart: bool)
    requires |s| >= 2
    ensures TrimEdgeDashes(s, atLineStart)
         == (if s[0] == '-' && atLineStart then [] else [s[0]]) + TrimEdgeDashes(s[1..], false)
  {
    var t := s[1..];
    assert t[|t| - 1] == s[|s| - 1];
    if s[0] == '-' && atLineStart {
    } else if t[|t| - 1] == '-' {
      assert s[..|s| - 1] == [s[0]] + t[..|t| - 1];
    } else {
      assert s == [s[0]] + t;
    }
  }

  /** Line 155-159: lower-case, keep slug characters and whitespace, dash the whitespace runs, squeeze dashes, trim edge dashes. */
  function Slugify(title: string): string
  {
    var lowered := Text.Downcase(title);
    var kept := Text.Filter(lowered, IsSlugSourceChar);
    var dashed := Text.ReplaceRuns(kept, Text.IsRubyRegexSpace, '-');
    var squeezed := Text.ReplaceRuns(dashed, IsDash, '-');
    DropLineEdgeDashes(squeezed, true)
  }

  /** Lower-case letters, digits and single dashes, with no dash at either end. */
  predicate IsSlug(s: string)
  {
    (forall i :: 0 <= i < |s| ==> IsSlugChar(s[i]))
    && Text.NoDoubled(s, '-')
    && (s == [] || (s[0] != '-' && s[|s| - 1] != '-'))
  }

  /** Dropping a last dash from a line of slug characters that starts with no dash and has no doubled dash gives a slug. */
  lemma DropLastDashIsSlug(a: string)
    requires forall i :: 0 <= i < |a| ==> IsSlugChar(a[i])
    requires Text.NoDoubled(a, '-')
    requires a == [] || a[0] != '-'
    ensures IsSlug(if a != [] && a[|a| - 1] == '-' then a[..|a| - 1] else a)
  {
    if a != [] && a[|a| - 1] == '-' {
      var n := |a|;
      if n >= 2 {
        assert a[n - 2] != '-';
      }
    }
  }

  lemma TrimEdgeDashesIsSlug(s: string)
    requires forall i :: 0 <= i < |s| ==> IsSlugChar(s[i])
    requires Text.NoDoubled(s, '-')
    ensures IsSlug(TrimEdgeDashes(s, true))
  {
    if s != [] && s[0] == '-' {
      var a := s[1..];
      if |s| > 1 {
        assert !(s[0] == '-' && s[1] == '-');
      }
      assert forall i :: 0 <= i < |a| ==> a[i] == s[i + 1];
      DropLastDashIsSlug(a);
    } else {
      DropLastDashIsSlug(s);
    }
  }

  /** `slugify` output contains only a-z, 0-9 and '-', never "--", and no dash at either end. */
  lemma SlugifyIsSlug(title: string)
    ensures IsSlug(Slugify(title))
  {
    var lowered := Text.Downcase(title);
    var kept := Text.Filter(lowered, IsSlugSourceChar);
    var dashed := Text.ReplaceRuns(kept, Text.IsRubyRegexSpace, '-');
    var squeezed := Text.ReplaceRuns(dashed, IsDash, '-');
    Text.ReplaceRunsClears(kept, Text.IsRubyRegexSpace, '-');
    Text.ReplaceRunsFrom(kept, Text.IsRubyRegexSpace, '-');
    assert forall i :: 0 <= i < |dashed| ==> IsSlugChar(dashed[i]);
    Text.ReplaceRunsFrom(dashed, IsDash, '-');
    Text.ReplaceRunsSqueezes(dashed, IsDash, '-');
    assert forall i :: 0 <= i < |squeezed| ==> IsSlugChar(squeezed[i]);
    DropLineEdgeDashesOneLine(squeezed, true);
    TrimEdgeDashesIsSlug(squeezed);
  }

  /** A slug is its own slug. */
  lemma SlugifyFixesSlugs(s: string)
    requires IsSlug(s)
    ensures Slugify(s) == s
  {
    forall i | 0 <= i < |s|
      ensures !Text.IsAsciiUpper(s[i]) && s[i] != '\U{212A}' && s[i] != '\U{0130}' && s[i] != '\n'
      ensures IsSlugSourceChar(s[i]) && !Text.IsRubyRegexSpace(s[i]) && (IsDash(s[i]) <==> s[i] == '-')
    {
      assert IsSlugChar(s[i]);
    }
    Text.DowncaseLower(s);
    Text.FilterKeepsAll(s, IsSlugSourceChar);
    Text.ReplaceRunsNone(s, Text.IsRubyRegexSpace, '-');
    Text.ReplaceRunsSingles(s, IsDash, '-');
    DropLineEdgeDashesOneLine(s, true);
    assert TrimEdgeDashes(s, true) == s;
  }

  /** `slugify` is idempotent. */
  lemma SlugifyIdempotent(title: string)
    ensures Slugify(Slugify(title)) == Slugify(title)
  {
    SlugifyIsSlug(title);
    SlugifyFixesSlugs(Slugify(title));
  }

  // ---------------------------------------------------------------------------
  // format_yaml_array (lines 149-152)
  // ---------------------------------------------------------------------------

  function Quote(item: string): string { "\"" + item + "\"" }

  function Quoted(items: seq<string>): (r: seq<string>)
    ensures |r| == |items| && forall k :: 0 <= k < |r| ==> r[k] == Quote(items[k])
  {
    seq(|items|, k requires 0 <= k < |items| => Quote(items[k]))
  }

  /** A YAML flow sequence of double-quoted items; the items are not escaped. */
  function FormatYamlArray(items: seq<string>): string
  {
    if items == [] then "[]" else "[" + Text.Join(Quoted(items), ", ") + "]"
  }

  const ItemSeparator: string := "\", \""

  /** Reads a flow sequence of double-quoted, unescaped items back. */
  function ParseYamlArray(s: string): Option<seq<string>>
  {
    if |s| < 2 || s[0] != '[' || s[|s| - 1] != ']' then None
    else
      var inner := s[1..|s| - 1];
      if inner == [] then Some([])
      else if |inner| < 2 || inner[0] != '"' || inner[|inner| - 1] != '"' then None
      else Some(Text.Split(inner[1..|inner| - 1], ItemSeparator))
  }

  lemma {:induction false} JoinQuoted(items: seq<string>)
    requires |items| >= 1
    ensures Text.Join(Quoted(items), ", ") == "\"" + Text.Join(items, ItemSeparator) + "\""
    decreases |items|
  {
    if |items| >= 2 {
      JoinQuoted(items[1..]);
      assert Quoted(items)[1..] == Quoted(items[1..]);
    }
  }

  /** Items without a double quote are read back exactly, in order. */
  lemma ParseFormatYamlArray(items: seq<string>)
    requires forall k, i :: 0 <= k < |items| && 0 <= i < |items[k]| ==> items[k][i] != '"'
    ensures ParseYamlArray(FormatYamlArray(items)) == Some(items)
  {
    if items != [] {
      JoinQuoted(items);
      var j := Text.Join(items, ItemSeparator);
      var s := FormatYamlArray(items);
      assert s == "[" + ("\"" + j + "\"") + "]";
      assert s[1..|s| - 1] == "\"" + j + "\"";
      assert ("\"" + j + "\"")[1..|j| + 1] == j;
      Text.SplitJoin(items, ItemSeparator);
    }
  }

  // ---------------------------------------------------------------------------
  // Option values (lines 36-59)
  // ---------------------------------------------------------------------------

  /** Lines 41 and 45: `value.split(',').map(&:strip)`. */
  function SplitList(value: string): (items: seq<string>)
    ensures |items| == |Text.RubySplit(value, ',')|
  {
    var raw := Text.RubySplit(value, ',');
    seq(|raw|, k requires 0 <= k < |raw| => Text.RubyStrip(raw[k]))
  }

  /** No whitespace at either end, as `strip` leaves it. */
  predicate Stripped(s: string)
  {
    s == [] || (!Text.IsRubyStripSpace(s[0]) && !Text.IsRubyStripSpace(s[|s| - 1]))
  }

  /** Each item is a stripped piece between commas, in order; the pieces joined by commas give the argument up to trailing commas. */
  lemma SplitListParts(value: string)
    ensures var raw := Text.RubySplit(value, ','); var items := SplitList(value);
      (forall k :: 0 <= k < |items| ==> items[k] == Text.RubyStrip(raw[k]))
      && (forall k, i :: 0 <= k < |items| && 0 <= i < |items[k]| ==> items[k][i] != ',')
      && (forall k :: 0 <= k < |items| ==> Stripped(items[k]))
      && Text.PrefixBeforeRun(Text.Join(raw, [',']), value, ',')
  {
    var raw := Text.RubySplit(value, ',');
    var items := SplitList(value);
    Text.RubySplitParts(value, ',');
    forall k | 0 <= k < |items|
      ensures forall i :: 0 <= i < |items[k]| ==> items[k][i] != ','
      ensures Stripped(items[k])
    {
      StripKeepsAbsent(raw[k], ',');
    }
  }

  /** Stripping adds no character: a character absent from the string is absent from its strip. */
  lemma StripKeepsAbsent(s: string, c: char)
    requires forall i :: 0 <= i < |s| ==> s[i] != c
    ensures forall i :: 0 <= i < |Text.RubyStrip(s)| ==> Text.RubyStrip(s)[i] != c
  {
    var d := Text.DropWhile(s, Text.IsRubyStripSpace);
    var e := Text.DropWhileEnd(d, Text.IsRubyStripSpace);
    assert Text.RubyStrip(s) == e;
    forall i | 0 <= i < |e|
      ensures e[i] != c
    {
      assert e[i] == d[i];
      assert d[i] == s[|s| - |d| + i];
    }
  }

  /** The settings record (lines 9-15). */
  datatype Options = Options(title: Option<string>, categories: seq<string>, tags: seq<string>, author: string, template: string)

  const DefaultOptions: Options := Options(None, [], [], "Samadeep Sengupta", "default")

  /** Command-line arguments after OptionParser has matched them to their switches. */
  datatype Arg =
    | TitleArg(title: string)
    | CategoriesArg(categories: string)
    | TagsArg(tags: string)
    | AuthorArg(author: string)
    | TemplateArg(template: string)
    | HelpArg

  /** One option callback; `--help` is handled by `ParseArgs`. */
  function ApplyArg(o: Options, a: Arg): Options
  {
    match a
    case TitleArg(t) => o.(title := Some(t))
    case CategoriesArg(v) => o.(categories := SplitList(v))
    case TagsArg(v) => o.(tags := SplitList(v))
    case AuthorArg(v) => o.(author := v)
    case TemplateArg(v) => o.(template := v)
    case HelpArg => o
  }

  /** The callbacks in order; `--help` stops parsing (the program then prints the help and exits). */
  function ParseArgs(o: Options, args: seq<Arg>): (Options, bool)
    decreases |args|
  {
    if args == [] then (o, false)
    else if args[0].HelpArg? then (o, true)
    else ParseArgs(ApplyArg(o, args[0]), args[1..])
  }

  /** Parsing ends in the help exit exactly when some argument asks for help. */
  lemma {:induction false} ParseArgsHelp(o: Options, args: seq<Arg>)
    ensures ParseArgs(o, args).1 <==> exists k :: 0 <= k < |args| && args[k].HelpArg?
    decreases |args|
  {
    if args != [] && !args[0].HelpArg? {
      ParseArgsHelp(ApplyArg(o, args[0]), args[1..]);
      assert forall k :: 1 <= k < |args| ==> args[k] == args[1..][k - 1];
    }
  }

  /** Without a `--title` argument the title stays what it was. */
  lemma {:induction false} ParseArgsKeepsTitle(o: Options, args: seq<Arg>)
    requires forall k :: 0 <= k < |args| ==> !args[k].TitleArg?
    ensures ParseArgs(o, args).0.title == o.title
    decreases |args|
  {
    if args != [] && !args[0].HelpArg? {
      ParseArgsKeepsTitle(ApplyArg(o, args[0]), args[1..]);
    }
  }

  // ---------------------------------------------------------------------------
  // Date, file name, content
  // ---------------------------------------------------------------------------

  /** A calendar date, as `Date.today` gives it. */
  datatype Date = Date(year: nat, month: nat, day: nat)

  predicate ValidDate(d: Date)
  {
    d.year < 10000 && 1 <= d.month <= 12 && 1 <= d.day <= 31
  }

  /** `strftime('%Y-%m-%d')`. */
  function FormatYmd(d: Date): string
  {
    Text.ZeroPad(d.year, 4) + "-" + Text.ZeroPad(d.month, 2) + "-" + Text.ZeroPad(d.day, 2)
  }

  lemma ZeroPadExact(n: nat, width: nat)
    requires 1 <= width && n < Text.Pow10(width)
    ensures |Text.ZeroPad(n, width)| == width
  {
    Text.NatToStringLength(n, width);
  }

  /** Ten characters, dashes at 4 and 7, and the three numbers read back from their fields. */
  lemma FormatYmdParts(d: Date)
    requires ValidDate(d)
    ensures
      var s := FormatYmd(d);
      |s| == 10 && s[4] == '-' && s[7] == '-'
      && (forall i :: 0 <= i < 10 && i != 4 && i != 7 ==> Text.IsDigit(s[i]))
      && Text.ParseDecimal(s[..4]) == d.year
      && Text.ParseDecimal(s[5..7]) == d.month
      && Text.ParseDecimal(s[8..]) == d.day
  {
    assert Text.Pow10(4) == 10000 && Text.Pow10(2) == 100;
    ZeroPadExact(d.year, 4);
    ZeroPadExact(d.month, 2);
    ZeroPadExact(d.day, 2);
    Text.ParseZeroPad(d.year, 4);
    Text.ParseZeroPad(d.month, 2);
    Text.ParseZeroPad(d.day, 2);
    var s := FormatYmd(d);
    assert s[..4] == Text.ZeroPad(d.year, 4);
    assert s[5..7] == Text.ZeroPad(d.month, 2);
    assert s[8..] == Text.ZeroPad(d.day, 2);
  }

  /** Line 91: `strftime('%Y-%m-%d %H:%M:%S +0000')` of a `Date`, whose time of day is midnight. */
  function DateStamp(d: Date): string
  {
    FormatYmd(d) + " 00:00:00 +0000"
  }

  /** Line 65. */
  function Filename(d: Date, title: string): string
  {
    FormatYmd(d) + "-" + Slugify(title) + ".md"
  }

  /** Line 66: `File.join("_posts", filename)`. */
  function PostPath(d: Date, title: string): string
  {
    "_posts/" + Filename(d, title)
  }

  /** Two posts get the same file name exactly when they have the same date and the same slug. */
  lemma FilenameInjective(d1: Date, t1: string, d2: Date, t2: string)
    requires ValidDate(d1) && ValidDate(d2)
    ensures Filename(d1, t1) == Filename(d2, t2) <==> d1 == d2 && Slugify(t1) == Slugify(t2)
  {
    FormatYmdParts(d1);
    FormatYmdParts(d2);
    var f1 := Filename(d1, t1);
    var f2 := Filename(d2, t2);
    assert f1[..10] == FormatYmd(d1) && f1[11..|f1| - 3] == Slugify(t1);
    assert f2[..10] == FormatYmd(d2) && f2[11..|f2| - 3] == Slugify(t2);
    if f1 == f2 {
      assert FormatYmd(d1)[..4] == FormatYmd(d2)[..4];
      assert FormatYmd(d1)[5..7] == FormatYmd(d2)[5..7];
      assert FormatYmd(d1)[8..] == FormatYmd(d2)[8..];
    }
  }

  /** Lines 162-164. */
  function Description(title: string): (r: string)
    ensures |r| == 25 + |Text.Downcase(title)| + 78
    ensures r[25..|r| - 78] == Text.Downcase(title)
  {
    "A comprehensive guide to " + Text.Downcase(title)
    + ". Learn about best practices, implementation details, and real-world examples."
  }

  /** Two titles get the same description exactly when they downcase alike: the title can be read back. */
  lemma DescriptionInjective(t1: string, t2: string)
    ensures Description(t1) == Description(t2) <==> Text.Downcase(t1) == Text.Downcase(t2)
  {
  }

  /** Lines 111-147: the built-in template. */
  const DefaultTemplate: string :=
      "---\n"
      + "layout: post\n"
      + "title: \"{{TITLE}}\"\n"
      + "date: {{DATE}}\n"
      + "categories: {{CATEGORIES}}\n"
      + "tags: {{TAGS}}\n"
      + "author: {{AUTHOR}}\n"
      + "description: \"{{DESCRIPTION}}\"\n"
      + "---\n"
      + "\n"
      + "# {{TITLE}}\n"
      + "\n"
      + "## Introduction\n"
      + "\n"
      + "Write your introduction here.\n"
      + "\n"
      + "## Main Content\n"
      + "\n"
      + "### Section 1\n"
      + "\n"
      + "Add your content here.\n"
      + "\n"
      + "### Section 2\n"
      + "\n"
      + "Add more content here.\n"
      + "\n"
      + "## Conclusion\n"
      + "\n"
      + "Summarize your post here.\n"
      + "\n"
      + "---\n"
      + "\n"
      + "*Have questions or feedback? Feel free to reach out on [Twitter](https://twitter.com/samadeepviews) or [LinkedIn](https://www.linkedin.com/in/samadeep)!*\n"

  /** Lines 101-109: a template file `_templates/NAME.md` when it exists, else the built-in one. */
  function LoadTemplate(templates: map<string, string>, name: string): string
  {
    var path := "_templates/" + name + ".md";
    if path in templates then templates[path] else DefaultTemplate
  }

  /** Lines 90-96: the placeholders and their values, in the order they are replaced. */
  function Substitutions(o: Options, d: Date, title: string): (r: seq<(string, string)>)
    ensures |r| == 7 && ValidSubstitutions(r)
    ensures r[0].1 == title && r[5].1 == Slugify(title) && r[6].1 == Description(title)
  {
    PairPlaceholders(title, DateStamp(d), o.author, FormatYamlArray(o.categories), FormatYamlArray(o.tags),
                     Slugify(title), Description(title))
  }

  /** Each placeholder paired with its value. */
  function PairPlaceholders(title: string, date: string, author: string, categories: string, tags: string,
                            slug: string, description: string): (r: seq<(string, string)>)
    ensures |r| == 7 && ValidSubstitutions(r)
    ensures r[0].1 == title && r[5].1 == slug && r[6].1 == description
  {
    [ ("{{TITLE}}", title),
      ("{{DATE}}", date),
      ("{{AUTHOR}}", author),
      ("{{CATEGORIES}}", categories),
      ("{{TAGS}}", tags),
      ("{{SLUG}}", slug),
      ("{{DESCRIPTION}}", description) ]
  }

  /** Every placeholder is non-empty, so `gsub` can look for it. */
  predicate ValidSubstitutions(subs: seq<(string, string)>)
  {
    forall k :: 0 <= k < |subs| ==> |subs[k].0| > 0
  }

  /** Each replacement runs on the result of the previous ones. */
  function ApplySubstitutions(s: string, subs: seq<(string, string)>): string
    requires ValidSubstitutions(subs)
    decreases |subs|
  {
    if subs == [] then s else ApplySubstitutions(Text.ReplaceAll(s, subs[0].0, subs[0].1), subs[1..])
  }

  /** A template mentioning none of the placeholders is written out unchanged. */
  lemma {:induction false} ApplySubstitutionsAbsent(s: string, subs: seq<(string, string)>)
    requires forall k :: 0 <= k < |subs| ==> |subs[k].0| > 0 && !Text.Contains(s, subs[k].0)
    ensures ApplySubstitutions(s, subs) == s
    decreases |subs|
  {
    if subs != [] {
      Text.ReplaceAbsent(s, subs[0].0, subs[0].1);
      ApplySubstitutionsAbsent(s, subs[1..]);
    }
  }

  /** The result of one run of the program. */
  datatype Outcome = Exit(code: nat) | Created(path: string, content: string)

  /** Applying the substitutions from the `k`-th on is applying the `k`-th, then those after it. */
  lemma ApplyStep(s: string, subs: seq<(string, string)>, k: nat)
    requires k < |subs| && ValidSubstitutions(subs)
    ensures ApplySubstitutions(s, subs[k..])
         == ApplySubstitutions(Text.ReplaceAll(s, subs[k].0, subs[k].1), subs[k + 1..])
  {
    assert subs[k..][1..] == subs[k + 1..];
  }

  /** The post a run writes once the options are parsed and the title is known. */
  function PostContent(o: Options, today: Date, templates: map<string, string>): string
    requires o.title.Some?
  {
    ApplySubstitutions(LoadTemplate(templates, o.template), Substitutions(o, today, o.title.value))
  }

  /** What `run` does, given the arguments, today's date, the existing paths and the template files. */
  function RunSpec(o: Options, args: seq<Arg>, today: Date, existing: set<string>, templates: map<string, string>): Outcome
  {
    var parsed := ParseArgs(o, args);
    if parsed.1 then Exit(0)
    else if parsed.0.title.None? then Exit(1)
    else if PostPath(today, parsed.0.title.value) in existing then Exit(1)
    else Created(PostPath(today, parsed.0.title.value), PostContent(parsed.0, today, templates))
  }

  /** Without `--title` no post is created: the run exits with 1, or with 0 when help was asked for. */
  lemma MissingTitleExits(args: seq<Arg>, today: Date, existing: set<string>, templates: map<string, string>)
    requires forall k :: 0 <= k < |args| ==> !args[k].TitleArg?
    ensures RunSpec(DefaultOptions, args, today, existing, templates)
         == Exit(if exists k :: 0 <= k < |args| && args[k].HelpArg? then 0 else 1)
  {
    ParseArgsHelp(DefaultOptions, args);
    ParseArgsKeepsTitle(DefaultOptions, args);
  }

  /** A created post never overwrites an existing path, and its name is the date and the title's slug. */
  lemma CreatedPostIsNew(o: Options, args: seq<Arg>, today: Date, existing: set<string>, templates: map<string, string>)
    requires RunSpec(o, args, today, existing, templates).Created?
    ensures
      var out := RunSpec(o, args, today, existing, templates);
      var parsed := ParseArgs(o, args).0;
      out.path !in existing
      && parsed.title.Some?
      && out.path == PostPath(today, parsed.title.value)
      && out.content == PostContent(parsed, today, templates)
  {
  }

  /** The generator object: its one field is the settings record that the option callbacks update. */
  class BlogPostGenerator {
    var options: Options

    /** Lines 8-16. */
    constructor()
      ensures options == DefaultOptions
    {
      options := DefaultOptions;
    }

    /** Lines 32-61: runs the callbacks in order; returns true when `--help` was met. */
    method ParseOptions(args: seq<Arg>) returns (help: bool)
      modifies this
      ensures (options, help) == ParseArgs(old(options), args)
    {
      help := false;
      var i := 0;
      while i < |args|
        invariant 0 <= i <= |args|
        invariant ParseArgs(old(options), args) == ParseArgs(options, args[i..])
      {
        if args[i].HelpArg? {
          help := true;
          return;
        }
        options := ApplyArg(options, args[i]);
        i := i + 1;
      }
    }

    /** Lines 87-99: the template is loaded, then rewritten one placeholder after another. */
    method GenerateContent(today: Date, templates: map<string, string>) returns (content: string)
      requires options.title.Some?
      ensures content == PostContent(options, today, templates)
    {
      var template := LoadTemplate(templates, options.template);
      content := Substitute(template, today);
    }

    /** Lines 90-96: the `gsub!` calls, each on the result of the one before. */
    method Substitute(loaded: string, today: Date) returns (content: string)
      requires options.title.Some?
      ensures content == ApplySubstitutions(loaded, Substitutions(options, today, options.title.value))
    {
      var template := loaded;
      var title := options.title.value;
      var date, author := DateStamp(today), options.author;
      var categories, tags := FormatYamlArray(options.categories), FormatYamlArray(options.tags);
      var slug, description := Slugify(title), Description(title);
      ghost var subs := Substitutions(options, today, title);
      assert subs == [("{{TITLE}}", title), ("{{DATE}}", date), ("{{AUTHOR}}", author), ("{{CATEGORIES}}", categories),
                      ("{{TAGS}}", tags), ("{{SLUG}}", slug), ("{{DESCRIPTION}}", description)];
      ApplyStep(template, subs, 0);
      template := Text.ReplaceAll(template, "{{TITLE}}", title);
      ApplyStep(template, subs, 1);
      template := Text.ReplaceAll(template, "{{DATE}}", date);
      ApplyStep(template, subs, 2);
      template := Text.ReplaceAll(template, "{{AUTHOR}}", author);
      ApplyStep(template, subs, 3);
      template := Text.ReplaceAll(template, "{{CATEGORIES}}", categories);
      ApplyStep(template, subs, 4);
      template := Text.ReplaceAll(template, "{{TAGS}}", tags);
      ApplyStep(template, subs, 5);
      template := Text.ReplaceAll(template, "{{SLUG}}", slug);
      ApplyStep(template, subs, 6);
      template := Text.ReplaceAll(template, "{{DESCRIPTION}}", description);
      assert subs[7..] == [];
      content := template;
    }

    /** Lines 18-28 and 63-85, with printing, the file write and the editor left out. */
    method Run(args: seq<Arg>, today: Date, existing: set<string>, templates: map<string, string>)
      returns (outcome: Outcome)
      modifies this
      ensures outcome == RunSpec(old(options), args, today, existing, templates)
      ensures options == ParseArgs(old(options), args).0
    {
      var help := ParseOptions(args);
      if help {
        return Exit(0);
      }
      if options.title.None? {
        return Exit(1);
      }
      var path := PostPath(today, options.title.value);
      if path in existing {
        return Exit(1);
      }
      var content := GenerateContent(today, templates);
      return Created(path, content);
    }
  }
}
