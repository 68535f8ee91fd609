/**
 * String operations shared by the Ruby plugins, the post script and the
 * browser scripts: decimal rendering, literal search and replace (`gsub` with
 * a string pattern), splitting and joining, run replacement (`gsub(/x+/, y)`),
 * the two languages' whitespace classes and trimming, and case mapping.
 */
module Text {

  // ---------------------------------------------------------------------------
  // Decimal numbers
  // ---------------------------------------------------------------------------

  predicate IsDigit(c: char) { '0' <= c <= '9' }

  function DigitChar(d: nat): (c: char)
    requires d < 10
    ensures IsDigit(c) && c as int - '0' as int == d
  {
    ('0' as int + d) as char
  }

  /** Decimal rendering of a natural number, as `${n}` in JavaScript and `n.to_s` in Ruby. */
  function NatToString(n: nat): (s: string)
    ensures |s| >= 1
    ensures forall i :: 0 <= i < |s| ==> IsDigit(s[i])
    decreases n
  {
    if n < 10 then [DigitChar(n)] else NatToString(n / 10) + [DigitChar(n % 10)]
  }

  /** Reads a string of decimal digits back as a number. */
  function ParseDecimal(s: string): nat
    requires forall i :: 0 <= i < |s| ==> IsDigit(s[i])
    decreases |s|
  {
    if s == [] then 0
    else
      assert IsDigit(s[|s| - 1]);
      ParseDecimal(s[..|s| - 1]) * 10 + (s[|s| - 1] as int - '0' as int)
  }

  /** Reading back a rendered number gives the number. */
  lemma {:induction false} ParseNatToString(n: nat)
    ensures ParseDecimal(NatToString(n)) == n
    decreases n
  {
    var s := NatToString(n);
    if n >= 10 {
      ParseNatToString(n / 10);
      assert s[..|s| - 1] == NatToString(n / 10);
    }
  }

  /** Distinct numbers render as distinct strings. */
  lemma NatToStringInjective(m: nat, n: nat)
    ensures NatToString(m) == NatToString(n) ==> m == n
  {
    ParseNatToString(m);
    ParseNatToString(n);
  }

  /** `n` rendered in decimal and left-padded with '0' to at least `width` digits (`%02d`, `%Y`). */
  function ZeroPad(n: nat, width: nat): (s: string)
    ensures |s| >= width
    ensures forall i :: 0 <= i < |s| ==> IsDigit(s[i])
  {
    var digits := NatToString(n);
    if |digits| >= width then digits else seq(width - |digits|, _ => '0') + digits
  }

  function Pow10(k: nat): (p: nat)
    ensures p >= 1
  {
    if k == 0 then 1 else 10 * Pow10(k - 1)
  }

  /** A number below 10^k takes at most k digits. */
  lemma {:induction false} NatToStringLength(n: nat, k: nat)
    requires 1 <= k && n < Pow10(k)
    ensures |NatToString(n)| <= k
    decreases n
  {
    if n >= 10 {
      assert k >= 2;
      NatToStringLength(n / 10, k - 1);
    }
  }

  /** Leading zeros do not change the value read. */
  lemma {:induction false} ParseLeadingZeros(z: nat, d: string)
    requires forall i :: 0 <= i < |d| ==> IsDigit(d[i])
    ensures ParseDecimal(seq(z, _ => '0') + d) == ParseDecimal(d)
    decreases |d|, z
  {
    var zs := seq(z, _ => '0');
    if d == [] {
      assert zs + d == zs;
      if z > 0 {
        ParseLeadingZeros(z - 1, d);
        assert zs[..z - 1] == seq(z - 1, _ => '0') + d;
      }
    } else {
      ParseLeadingZeros(z, d[..|d| - 1]);
      assert (zs + d)[..|zs + d| - 1] == zs + d[..|d| - 1];
    }
  }

  /** Reading back a zero-padded number gives the number. */
  lemma ParseZeroPad(n: nat, width: nat)
    ensures ParseDecimal(ZeroPad(n, width)) == n
  {
    ParseNatToString(n);
    var digits := NatToString(n);
    if |digits| < width {
      ParseLeadingZeros(width - |digits|, digits);
    }
  }

  // ---------------------------------------------------------------------------
  // Literal occurrences, splitting, joining and replacing
  // ---------------------------------------------------------------------------

  /** `p` occurs in `s` starting at index `i`. */
  predicate OccursAt(s: string, p: string, i: nat)
  {
    i + |p| <= |s| && s[i..i + |p|] == p
  }

  predicate Contains(s: string, p: string)
  {
    exists i: nat | i <= |s| :: OccursAt(s, p, i)
  }

  /**
   * `s.gsub(pat, rep)` for a literal, non-empty pattern: scanning left to right,
   * every occurrence that does not overlap an earlier replaced one is replaced.
   */
  function ReplaceAll(s: string, pat: string, rep: string): string
    requires |pat| > 0
    decreases |s|
  {
    if |s| < |pat| then s
    else if s[..|pat|] == pat then rep + ReplaceAll(s[|pat|..], pat, rep)
    else [s[0]] + ReplaceAll(s[1..], pat, rep)
  }

  /**
   * The pieces between the occurrences that `ReplaceAll` replaces, in order;
   * empty pieces are kept. This is the reference description of a global
   * literal replacement.
   */
  function Split(s: string, sep: string): (pieces: seq<string>)
    requires |sep| > 0
    ensures |pieces| >= 1
    decreases |s|
  {
    if |s| < |sep| then [s]
    else if s[..|sep|] == sep then [[]] + Split(s[|sep|..], sep)
    else
      var rest := Split(s[1..], sep);
      [[s[0]] + rest[0]] + rest[1..]
  }

  /** The pieces with `sep` between each neighbouring pair (Ruby `Array#join`, JavaScript `Array.prototype.join`). */
  function Join(pieces: seq<string>, sep: string): string
    decreases |pieces|
  {
    if |pieces| == 0 then []
    else if |pieces| == 1 then pieces[0]
    else pieces[0] + sep + Join(pieces[1..], sep)
  }

  lemma JoinCons(p: string, rest: seq<string>, sep: string)
    requires |rest| >= 1
    ensures Join([p] + rest, sep) == p + sep + Join(rest, sep)
  {
    assert ([p] + rest)[1..] == rest;
  }

  /** Extending the first piece by a prefix extends the join by that prefix. */
  lemma JoinPrepend(c: string, pieces: seq<string>, sep: string)
    requires |pieces| >= 1
    ensures Join([c + pieces[0]] + pieces[1..], sep) == c + Join(pieces, sep)
  {
    if |pieces| > 1 {
      assert ([c + pieces[0]] + pieces[1..])[1..] == pieces[1..];
    }
  }

  /** The first piece of a split is a prefix of the input. */
  lemma {:induction false} SplitHeadIsPrefix(s: string, sep: string)
    requires |sep| > 0
    ensures |Split(s, sep)[0]| <= |s| && Split(s, sep)[0] == s[..|Split(s, sep)[0]|]
    decreases |s|
  {
    if |s| >= |sep| && s[..|sep|] != sep {
      SplitHeadIsPrefix(s[1..], sep);
    }
  }

  /** Joining the pieces of a split with the separator gives back the input. */
  lemma {:induction false} JoinSplit(s: string, sep: string)
    requires |sep| > 0
    ensures Join(Split(s, sep), sep) == s
    decreases |s|
  {
    if |s| < |sep| {
    } else if s[..|sep|] == sep {
      JoinSplit(s[|sep|..], sep);
      JoinCons([], Split(s[|sep|..], sep), sep);
      assert s == sep + s[|sep|..];
    } else {
      var rest := Split(s[1..], sep);
      JoinSplit(s[1..], sep);
      JoinPrepend([s[0]], rest, sep);
      assert s == [s[0]] + s[1..];
    }
  }

  /** A global literal replacement puts `rep` between the pieces of the split. */
  lemma {:induction false} ReplaceAllIsJoinSplit(s: string, pat: string, rep: string)
    requires |pat| > 0
    ensures ReplaceAll(s, pat, rep) == Join(Split(s, pat), rep)
    decreases |s|
  {
    if |s| < |pat| {
    } else if s[..|pat|] == pat {
      ReplaceAllIsJoinSplit(s[|pat|..], pat, rep);
      JoinCons([], Split(s[|pat|..], pat), rep);
    } else {
      ReplaceAllIsJoinSplit(s[1..], pat, rep);
      JoinPrepend([s[0]], Split(s[1..], pat), rep);
    }
  }

  /** No piece of a split contains the separator: every occurrence was cut out. */
  lemma {:induction false} SplitPiecesAreFree(s: string, sep: string)
    requires |sep| > 0
    ensures forall k :: 0 <= k < |Split(s, sep)| ==> !Contains(Split(s, sep)[k], sep)
    decreases |s|
  {
    var pieces := Split(s, sep);
    if |s| < |sep| {
      forall i: nat | OccursAt(s, sep, i) ensures false { }
    } else if s[..|sep|] == sep {
      SplitPiecesAreFree(s[|sep|..], sep);
      forall k | 0 <= k < |pieces| ensures !Contains(pieces[k], sep) {
        if k == 0 {
          forall i: nat | OccursAt(pieces[0], sep, i) ensures false { }
        } else {
          assert pieces[k] == Split(s[|sep|..], sep)[k - 1];
        }
      }
    } else {
      var rest := Split(s[1..], sep);
      SplitPiecesAreFree(s[1..], sep);
      SplitHeadIsPrefix(s[1..], sep);
      var head := [s[0]] + rest[0];
      assert head == s[..|head|];
      forall i: nat | OccursAt(head, sep, i) ensures false {
        if i > 0 {
          assert rest[0][i - 1..i - 1 + |sep|] == head[i..i + |sep|];
          assert OccursAt(rest[0], sep, i - 1);
        }
      }
      forall k | 1 <= k < |pieces| ensures !Contains(pieces[k], sep) {
        assert pieces[k] == rest[k];
      }
    }
  }

  /** Replacing a pattern that does not occur changes nothing. */
  lemma ReplaceAbsent(s: string, pat: string, rep: string)
    requires |pat| > 0 && !Contains(s, pat)
    ensures ReplaceAll(s, pat, rep) == s
  {
    ReplaceAllIsJoinSplit(s, pat, rep);
    SplitOfFree(s, pat);
  }

  /** A string with no occurrence of the separator splits into itself alone. */
  lemma {:induction false} SplitOfFree(s: string, sep: string)
    requires |sep| > 0 && !Contains(s, sep)
    ensures Split(s, sep) == [s]
    decreases |s|
  {
    if |s| >= |sep| {
      assert !OccursAt(s, sep, 0);
      forall i: nat | OccursAt(s[1..], sep, i) ensures false {
        assert s[1..][i..i + |sep|] == s[i + 1..i + 1 + |sep|];
        assert OccursAt(s, sep, i + 1);
      }
      SplitOfFree(s[1..], sep);
      assert [s[0]] + s[1..] == s;
    }
  }

  /**
   * When no piece contains the separator's first character, splitting the
   * joined pieces gives the pieces back.
   */
  lemma {:induction false} SplitJoin(pieces: seq<string>, sep: string)
    requires |sep| > 0 && |pieces| >= 1
    requires forall k, i :: 0 <= k < |pieces| && 0 <= i < |pieces[k]| ==> pieces[k][i] != sep[0]
    ensures Split(Join(pieces, sep), sep) == pieces
    decreases |pieces|
  {
    if |pieces| == 1 {
      SplitOfNoFirst(pieces[0], sep);
    } else {
      SplitJoin(pieces[1..], sep);
      SplitPieceThenSep(pieces[0], sep, Join(pieces[1..], sep));
      assert [pieces[0]] + pieces[1..] == pieces;
    }
  }

  lemma {:induction false} SplitOfNoFirst(s: string, sep: string)
    requires |sep| > 0
    requires forall i :: 0 <= i < |s| ==> s[i] != sep[0]
    ensures Split(s, sep) == [s]
    decreases |s|
  {
    if |s| >= |sep| {
      assert s[..|sep|][0] != sep[0];
      SplitOfNoFirst(s[1..], sep);
      assert [s[0]] + s[1..] == s;
    }
  }

  lemma {:induction false} SplitPieceThenSep(piece: string, sep: string, rest: string)
    requires |sep| > 0
    requires forall i :: 0 <= i < |piece| ==> piece[i] != sep[0]
    ensures Split(piece + sep + rest, sep) == [piece] + Split(rest, sep)
    decreases |piece|
  {
    var s := piece + sep + rest;
    if |piece| == 0 {
      assert s == sep + rest && s[..|sep|] == sep && s[|sep|..] == rest;
    } else {
      assert s[..|sep|][0] == piece[0];
      assert s[1..] == piece[1..] + sep + rest;
      SplitPieceThenSep(piece[1..], sep, rest);
      assert [s[0]] + piece[1..] == piece;
    }
  }

  /** Joining one more piece appends the separator and the piece. */
  lemma {:induction false} JoinSnoc(pieces: seq<string>, p: string, sep: string)
    requires |pieces| >= 1
    ensures Join(pieces + [p], sep) == Join(pieces, sep) + sep + p
    decreases |pieces|
  {
    if |pieces| == 1 {
      assert (pieces + [p])[1..] == [p];
    } else {
      JoinSnoc(pieces[1..], p, sep);
      assert (pieces + [p])[1..] == pieces[1..] + [p];
    }
  }

  /** The pieces without the empty ones at the end. */
  function DropTrailingEmpty(pieces: seq<string>): (r: seq<string>)
    ensures |r| <= |pieces| && r == pieces[..|r|]
    ensures r == [] || r[|r| - 1] != []
    ensures forall k :: |r| <= k < |pieces| ==> pieces[k] == []
    decreases |pieces|
  {
    if pieces != [] && pieces[|pieces| - 1] == [] then DropTrailingEmpty(pieces[..|pieces| - 1]) else pieces
  }

  /** `r` is `j` with some copies of `c` removed from its end. */
  predicate PrefixBeforeRun(r: string, j: string, c: char)
  {
    |r| <= |j| && r == j[..|r|] && forall i :: |r| <= i < |j| ==> j[i] == c
  }

  lemma PrefixBeforeRunExtend(r: string, j: string, c: char)
    requires PrefixBeforeRun(r, j, c)
    ensures PrefixBeforeRun(r, j + [c], c)
  {
    assert (j + [c])[..|r|] == j[..|r|];
  }

  /** Dropping empty trailing pieces drops only separators from the end of the joined string. */
  lemma {:induction false} JoinDropTrailingEmpty(pieces: seq<string>, c: char)
    ensures PrefixBeforeRun(Join(DropTrailingEmpty(pieces), [c]), Join(pieces, [c]), c)
    decreases |pieces|
  {
    if pieces != [] && pieces[|pieces| - 1] == [] {
      var init := pieces[..|pieces| - 1];
      assert DropTrailingEmpty(pieces) == DropTrailingEmpty(init);
      JoinDropTrailingEmpty(init, c);
      var r := Join(DropTrailingEmpty(init), [c]);
      assert init + [[]] == pieces;
      if |init| >= 1 {
        JoinSnoc(init, [], [c]);
        assert Join(pieces, [c]) == Join(init, [c]) + [c];
        PrefixBeforeRunExtend(r, Join(init, [c]), c);
      } else {
        assert Join(pieces, [c]) == [];
      }
    }
  }

  /** Ruby `s.split(c)` for a one-character separator: the pieces between separators, without empty pieces at the end. */
  function RubySplit(s: string, c: char): seq<string>
  {
    DropTrailingEmpty(Split(s, [c]))
  }

  /**
   * The pieces hold no separator, the last one is not empty, and joining
   * them gives the input up to a run of separators at its end.
   */
  lemma RubySplitParts(s: string, c: char)
    ensures forall k, i :: 0 <= k < |RubySplit(s, c)| && 0 <= i < |RubySplit(s, c)[k]| ==> RubySplit(s, c)[k][i] != c
    ensures RubySplit(s, c) == [] || RubySplit(s, c)[|RubySplit(s, c)| - 1] != []
    ensures PrefixBeforeRun(Join(RubySplit(s, c), [c]), s, c)
  {
    var ps := Split(s, [c]);
    var r := RubySplit(s, c);
    JoinSplit(s, [c]);
    JoinDropTrailingEmpty(ps, c);
    SplitPiecesAreFree(s, [c]);
    forall k, i | 0 <= k < |r| && 0 <= i < |r[k]| ensures r[k][i] != c {
      assert r[k] == ps[k];
      if r[k][i] == c {
        assert OccursAt(ps[k], [c], i);
      }
    }
  }

  // ---------------------------------------------------------------------------
  // Character filters and runs
  // ---------------------------------------------------------------------------

  /** The characters of `s` that satisfy `keep`, in order (a `gsub` of a character class with ''). */
  function Filter(s: string, keep: char -> bool): (r: string)
    ensures |r| <= |s|
    ensures forall i :: 0 <= i < |r| ==> keep(r[i])
    decreases |s|
  {
    if s == [] then [] else (if keep(s[0]) then [s[0]] else []) + Filter(s[1..], keep)
  }

  lemma {:induction false} FilterAppend(s: string, t: string, keep: char -> bool)
    ensures Filter(s + t, keep) == Filter(s, keep) + Filter(t, keep)
    decreases |s|
  {
    if s != [] {
      assert (s + t)[0] == s[0];
      assert (s + t)[1..] == s[1..] + t;
      FilterAppend(s[1..], t, keep);
    } else {
      assert s + t == t;
    }
  }

  lemma {:induction false} FilterKeepsAll(s: string, keep: char -> bool)
    requires forall i :: 0 <= i < |s| ==> keep(s[i])
    ensures Filter(s, keep) == s
    decreases |s|
  {
    if s != [] { FilterKeepsAll(s[1..], keep); }
  }

  /** Every character of the filtered string comes from the input. */
  lemma {:induction false} FilterFrom(s: string, keep: char -> bool)
    ensures forall i :: 0 <= i < |Filter(s, keep)| ==> Filter(s, keep)[i] in s
    decreases |s|
  {
    if s != [] { FilterFrom(s[1..], keep); }
  }

  /** `s` without its leading characters that satisfy `p`. */
  function DropWhile(s: string, p: char -> bool): (r: string)
    ensures |r| <= |s| && r == s[|s| - |r|..]
    ensures r == [] || !p(r[0])
    ensures forall i :: 0 <= i < |s| - |r| ==> p(s[i])
    decreases |s|
  {
    if s != [] && p(s[0]) then DropWhile(s[1..], p) else s
  }

  /** `s.gsub(/[p]+/, sub)`: every maximal run of characters in the class `p` becomes the one character `sub`. */
  function ReplaceRuns(s: string, p: char -> bool, sub: char): (r: string)
    ensures |r| <= |s|
    decreases |s|
  {
    if s == [] then []
    else if p(s[0]) then [sub] + ReplaceRuns(DropWhile(s, p), p, sub)
    else [s[0]] + ReplaceRuns(s[1..], p, sub)
  }

  /** No character of the class survives a run replacement by a character outside the class. */
  lemma {:induction false} ReplaceRunsClears(s: string, p: char -> bool, sub: char)
    requires !p(sub)
    ensures forall i :: 0 <= i < |ReplaceRuns(s, p, sub)| ==> !p(ReplaceRuns(s, p, sub)[i])
    decreases |s|
  {
    if s != [] {
      if p(s[0]) { ReplaceRunsClears(DropWhile(s, p), p, sub); }
      else { ReplaceRunsClears(s[1..], p, sub); }
    }
  }

  /** The result of a run replacement holds only input characters and `sub`. */
  lemma {:induction false} ReplaceRunsFrom(s: string, p: char -> bool, sub: char)
    ensures forall i :: 0 <= i < |ReplaceRuns(s, p, sub)| ==>
      ReplaceRuns(s, p, sub)[i] == sub || ReplaceRuns(s, p, sub)[i] in s
    decreases |s|
  {
    if s != [] {
      if p(s[0]) {
        var d := DropWhile(s, p);
        ReplaceRunsFrom(d, p, sub);
        forall c | c in d ensures c in s { }
      } else {
        ReplaceRunsFrom(s[1..], p, sub);
      }
    }
  }

  /** A run replacement does not touch a string without characters of the class. */
  lemma {:induction false} ReplaceRunsNone(s: string, p: char -> bool, sub: char)
    requires forall i :: 0 <= i < |s| ==> !p(s[i])
    ensures ReplaceRuns(s, p, sub) == s
    decreases |s|
  {
    if s != [] { ReplaceRunsNone(s[1..], p, sub); }
  }

  /** The first character of a run replacement is `sub` or the input's first character. */
  lemma ReplaceRunsHead(s: string, p: char -> bool, sub: char)
    requires s != []
    ensures ReplaceRuns(s, p, sub) != []
    ensures ReplaceRuns(s, p, sub)[0] == if p(s[0]) then sub else s[0]
  {
  }

  /** `c` never stands twice in a row in `s`. */
  predicate NoDoubled(s: string, c: char)
  {
    forall i :: 0 <= i < |s| - 1 ==> !(s[i] == c && s[i + 1] == c)
  }

  /** Replacing runs of a class by a member of that class leaves no two neighbouring copies of it. */
  lemma {:induction false} ReplaceRunsSqueezes(s: string, p: char -> bool, sub: char)
    requires p(sub)
    ensures NoDoubled(ReplaceRuns(s, p, sub), sub)
    decreases |s|
  {
    if s != [] {
      if p(s[0]) {
        var d := DropWhile(s, p);
        ReplaceRunsSqueezes(d, p, sub);
        if d != [] { ReplaceRunsHead(d, p, sub); }
      } else {
        ReplaceRunsSqueezes(s[1..], p, sub);
      }
    }
  }

  /** Run replacement with a member of the class leaves a string without doubled `sub` and other class members unchanged. */
  lemma {:induction false} ReplaceRunsSingles(s: string, p: char -> bool, sub: char)
    requires forall i :: 0 <= i < |s| ==> (p(s[i]) <==> s[i] == sub)
    requires NoDoubled(s, sub)
    ensures ReplaceRuns(s, p, sub) == s
    decreases |s|
  {
    if s != [] {
      if p(s[0]) {
        assert DropWhile(s, p) == s[1..] by {
          if |s| > 1 { assert s[1] != sub; }
        }
      }
      ReplaceRunsSingles(s[1..], p, sub);
    }
  }

  // ---------------------------------------------------------------------------
  // Whitespace and trimming
  // ---------------------------------------------------------------------------

  /** Ruby's regexp class `\s`: space, tab, line feed, vertical tab, form feed, carriage return. */
  predicate IsRubyRegexSpace(c: char)
  {
    c == ' ' || c == '\t' || c == '\n' || c == '\U{000B}' || c == '\U{000C}' || c == '\r'
  }

  /** What Ruby's `String#strip` removes: `\s` and the null character. */
  predicate IsRubyStripSpace(c: char)
  {
    c == '\0' || IsRubyRegexSpace(c)
  }

  /**
   * ECMAScript WhiteSpace and LineTerminator code points: what `\s` matches and
   * what `String.prototype.trim` removes.
   */
  predicate IsJsSpace(c: char)
  {
    c == '\t' || c == '\n' || c == '\U{000B}' || c == '\U{000C}' || c == '\r' || c == ' '
    || c == '\U{00A0}' || c == '\U{1680}' || ('\U{2000}' <= c <= '\U{200A}')
    || c == '\U{2028}' || c == '\U{2029}' || c == '\U{202F}' || c == '\U{205F}'
    || c == '\U{3000}' || c == '\U{FEFF}'
  }

  /** `s` without its trailing characters that satisfy `p`. */
  function DropWhileEnd(s: string, p: char -> bool): (r: string)
    ensures |r| <= |s| && r == s[..|r|]
    ensures r == [] || !p(r[|r| - 1])
    ensures forall i :: |r| <= i < |s| ==> p(s[i])
    decreases |s|
  {
    if s != [] && p(s[|s| - 1]) then DropWhileEnd(s[..|s| - 1], p) else s
  }

  /** Removes leading and trailing characters of the class `p`. */
  function TrimBy(s: string, p: char -> bool): (r: string)
    ensures r == [] || (!p(r[0]) && !p(r[|r| - 1]))
  {
    var d := DropWhile(s, p);
    var e := DropWhileEnd(d, p);
    assert e != [] ==> e[0] == d[0];
    e
  }

  /** Trimming leaves a string without leading or trailing class members unchanged. */
  lemma TrimByUntouched(s: string, p: char -> bool)
    requires s == [] || (!p(s[0]) && !p(s[|s| - 1]))
    ensures TrimBy(s, p) == s
  {
  }

  /** Ruby `String#strip`. */
  function RubyStrip(s: string): string
  {
    TrimBy(s, IsRubyStripSpace)
  }

  /** JavaScript `String.prototype.trim`. */
  function JsTrim(s: string): string
  {
    TrimBy(s, IsJsSpace)
  }

  // ---------------------------------------------------------------------------
  // Case mapping
  // ---------------------------------------------------------------------------

  predicate IsAsciiUpper(c: char) { 'A' <= c <= 'Z' }
  predicate IsAsciiLower(c: char) { 'a' <= c <= 'z' }

  /**
   * The lower-case form of one character: ASCII letters, KELVIN SIGN (U+212A,
   * whose lower case is ASCII 'k') and LATIN CAPITAL LETTER I WITH DOT ABOVE
   * (U+0130, whose full lower case is 'i' followed by U+0307). Every other
   * character is kept: the true lower case of any of them is neither ASCII
   * nor whitespace.
   */
  function LowerChar(c: char): (r: string)
    ensures 1 <= |r| <= 2
    ensures forall i :: 0 <= i < |r| ==> !IsAsciiUpper(r[i]) && r[i] != '\U{212A}' && r[i] != '\U{0130}'
    ensures IsRubyStripSpace(r[0]) <==> IsRubyStripSpace(c)
    ensures IsRubyStripSpace(r[|r| - 1]) <==> IsRubyStripSpace(c)
  {
    if IsAsciiUpper(c) then [(c as int + 32) as char]
    else if c == '\U{212A}' then ['k']
    else if c == '\U{0130}' then ['i', '\U{0307}']
    else [c]
  }

  /** Ruby `String#downcase` and JavaScript `String.prototype.toLowerCase`, as far as `LowerChar` goes. */
  function Downcase(s: string): (r: string)
    ensures |s| <= |r| <= 2 * |s|
    ensures forall i :: 0 <= i < |r| ==> !IsAsciiUpper(r[i]) && r[i] != '\U{212A}' && r[i] != '\U{0130}'
    decreases |s|
  {
    if s == [] then [] else LowerChar(s[0]) + Downcase(s[1..])
  }

  /** A string with no ASCII upper-case letter, Kelvin sign or dotted capital I is its own lower case. */
  lemma {:induction false} DowncaseLower(s: string)
    requires forall i :: 0 <= i < |s| ==> !IsAsciiUpper(s[i]) && s[i] != '\U{212A}' && s[i] != '\U{0130}'
    ensures Downcase(s) == s
    decreases |s|
  {
    if s != [] { DowncaseLower(s[1..]); }
  }

  /** Lower-casing twice is lower-casing once. */
  lemma DowncaseIdempotent(s: string)
    ensures Downcase(Downcase(s)) == Downcase(s)
  {
    DowncaseLower(Downcase(s));
  }

  /** Lower-casing neither adds nor removes whitespace at either end. */
  lemma {:induction false} DowncaseEnds(s: string)
    requires s != []
    ensures Downcase(s) != []
    ensures IsRubyStripSpace(Downcase(s)[0]) <==> IsRubyStripSpace(s[0])
    ensures IsRubyStripSpace(Downcase(s)[|Downcase(s)| - 1]) <==> IsRubyStripSpace(s[|s| - 1])
    decreases |s|
  {
    var l := LowerChar(s[0]);
    assert Downcase(s) == l + Downcase(s[1..]);
    if |s| > 1 {
      DowncaseEnds(s[1..]);
    }
  }

  /** Ruby `String#capitalize` on a string: first letter upper case, the rest lower case (ASCII letters). */
  function Capitalize(s: string): (r: string)
    ensures s != [] ==> r != []
    ensures s != [] && IsAsciiLower(s[0]) ==> IsAsciiUpper(r[0])
  {
    if s == [] then []
    else if IsAsciiLower(s[0]) then [(s[0] as int - 32) as char] + Downcase(s[1..])
    else [s[0]] + Downcase(s[1..])
  }
}
