/**
 * The build-time markdown renderer of utils/generateRSSFeed.ts: an ordered
 * chain of global regular-expression substitutions, each written here as a
 * left-to-right scanner, followed by the paragraph stage. The chain keeps the
 * source's order, with its consequences: links are rewritten before images,
 * so only an image with empty alt text becomes an `<img>`, and the
 * underscore passes run before the link pass, so they rewrite URLs too.
 */
module Markdown {
  import opened Strings

  // ---------------------------------------------------------------------
  // Header passes: /^### (.*$)/gm, /^## (.*$)/gm, /^# (.*$)/gm
  // ---------------------------------------------------------------------

  datatype Level = H1 | H2 | H3

  function Marker(l: Level): string {
    match l
    case H1 => "# "
    case H2 => "## "
    case H3 => "### "
  }

  function Wrap(l: Level, x: string): string {
    var d := match l case H1 => "1" case H2 => "2" case H3 => "3";
    "<h" + d + ">" + x + "</h" + d + ">"
  }

  /** Where the current line ends: the first line terminator, or the end of `s`. */
  function LineEnd(s: string): (i: nat)
    ensures i <= |s| && NoTerminator(s[..i])
    ensures i < |s| ==> IsLineTerminator(s[i])
  {
    if s == [] || IsLineTerminator(s[0]) then 0
    else
      var i := 1 + LineEnd(s[1..]);
      assert s[..i] == [s[0]] + s[1..][..i - 1];
      i
  }

  /** What one header pass does to one line. */
  function HeaderOnLine(l: Level, line: string): string {
    if StartsWith(line, Marker(l)) then Wrap(l, line[|Marker(l)|..]) else line
  }

  /**
   * One header pass: every line that begins with the marker is wrapped in the
   * header tag. On a single line it is `HeaderOnLine`; `PassOnLines` gives
   * the line-by-line behaviour.
   */
  function HeaderPass(l: Level, s: string): (r: string)
    ensures NoTerminator(s) ==> r == HeaderOnLine(l, s)
    decreases |s|
  {
    var i := LineEnd(s);
    assert NoTerminator(s) ==> i == |s| && s[..i] == s by {
      if NoTerminator(s) {
        LineEndOfLine(s, []);
        assert s + [] == s;
      }
    }
    var out := HeaderOnLine(l, s[..i]);
    if i == |s| then out else out + [s[i]] + HeaderPass(l, s[i + 1..])
  }

  /**
   * The three header passes in source order: `###` first, then `##`, then
   * `#`. On a single line they act as `HeaderLine`, so no line gets two
   * header tags.
   */
  function Headers(s: string): (r: string)
    ensures NoTerminator(s) ==> r == HeaderLine(s)
  {
    var a := HeaderPass(H3, s);
    var b := HeaderPass(H2, a);
    assert NoTerminator(s) ==> HeaderPass(H1, b) == HeaderLine(s) by {
      if NoTerminator(s) {
        HeadersOnOneLine(s);
      }
    }
    HeaderPass(H1, b)
  }

  lemma HeadersOnOneLine(line: string)
    requires NoTerminator(line)
    ensures HeaderPass(H1, HeaderPass(H2, HeaderPass(H3, line))) == HeaderLine(line)
  {
    HeaderOnLineKeepsLine(H3, line);
    var a := HeaderOnLine(H3, line);
    HeaderOnLineKeepsLine(H2, a);
    var b := HeaderOnLine(H2, a);
    assert HeaderPass(H3, line) == a;
    assert HeaderPass(H2, a) == b;
    assert HeaderPass(H1, b) == HeaderOnLine(H1, b);
    ThreePassesOnLine(line);
  }

  /** What the three passes together do to one line: the longest marker wins, and only one tag is added. */
  function HeaderLine(line: string): (r: string)
    ensures StartsWith(line, "### ") ==> r == "<h3>" + line[4..] + "</h3>"
    ensures !StartsWith(line, "### ") && StartsWith(line, "## ") ==> r == "<h2>" + line[3..] + "</h2>"
    ensures !StartsWith(line, "### ") && !StartsWith(line, "## ") && StartsWith(line, "# ") ==>
      r == "<h1>" + line[2..] + "</h1>"
    ensures !StartsWith(line, "# ") && !StartsWith(line, "## ") && !StartsWith(line, "### ") ==> r == line
  {
    if StartsWith(line, "### ") then Wrap(H3, line[4..])
    else if StartsWith(line, "## ") then Wrap(H2, line[3..])
    else if StartsWith(line, "# ") then Wrap(H1, line[2..])
    else line
  }

  lemma LineEndOfLine(line: string, rest: string)
    requires NoTerminator(line)
    requires rest == [] || IsLineTerminator(rest[0])
    ensures LineEnd(line + rest) == |line|
    decreases |line|
  {
    if line != [] {
      assert (line + rest)[1..] == line[1..] + rest;
      LineEndOfLine(line[1..], rest);
    }
  }

  lemma HeaderOnLineKeepsLine(l: Level, line: string)
    requires NoTerminator(line)
    ensures NoTerminator(HeaderOnLine(l, line))
  {
    if StartsWith(line, Marker(l)) {
      var x := line[|Marker(l)|..];
      assert forall k :: 0 <= k < |x| ==> x[k] == line[k + |Marker(l)|];
    }
  }

  /** A pass works line by line. */
  lemma PassOnLines(l: Level, line: string, t: char, rest: string)
    requires NoTerminator(line) && IsLineTerminator(t)
    ensures HeaderPass(l, line + [t] + rest) == HeaderOnLine(l, line) + [t] + HeaderPass(l, rest)
  {
    var s := line + [t] + rest;
    LineEndOfLine(line, [t] + rest);
    assert s == line + ([t] + rest);
    assert s[..|line|] == line;
    assert s[|line|] == t;
    assert s[|line| + 1..] == rest;
  }

  /** A line that does not open with `#` is left alone by every header pass. */
  lemma NoMarkerOnLine(l: Level, line: string)
    requires line != [] && line[0] != '#'
    ensures HeaderOnLine(l, line) == line
  {
    if |Marker(l)| <= |line| {
      assert line[..|Marker(l)|][0] == line[0];
    }
  }

  lemma ThreePassesOnLine(line: string)
    requires NoTerminator(line)
    ensures HeaderOnLine(H1, HeaderOnLine(H2, HeaderOnLine(H3, line))) == HeaderLine(line)
  {
    var a := HeaderOnLine(H3, line);
    if StartsWith(line, "### ") {
      NoMarkerOnLine(H2, a);
      NoMarkerOnLine(H1, a);
    } else if StartsWith(line, "## ") {
      assert a == line;
      NoMarkerOnLine(H1, HeaderOnLine(H2, a));
    } else {
      assert a == line;
    }
  }

  /** The three passes rewrite each line on its own: the first line, then the rest. */
  lemma HeadersOnLines(line: string, t: char, rest: string)
    requires NoTerminator(line) && IsLineTerminator(t)
    ensures Headers(line + [t] + rest) == HeaderLine(line) + [t] + Headers(rest)
  {
    PassOnLines(H3, line, t, rest);
    HeaderOnLineKeepsLine(H3, line);
    var a := HeaderOnLine(H3, line);
    PassOnLines(H2, a, t, HeaderPass(H3, rest));
    HeaderOnLineKeepsLine(H2, a);
    var b := HeaderOnLine(H2, a);
    PassOnLines(H1, b, t, HeaderPass(H2, HeaderPass(H3, rest)));
    ThreePassesOnLine(line);
  }

  // ---------------------------------------------------------------------
  // Inline passes: emphasis, links, images, code spans
  // ---------------------------------------------------------------------

  /**
   * The inline patterns of the chain:
   * Emphasis(d, o, c) is /d(.*?)d/g replaced by o$1c;
   * Link is /\[([^\]]+)\]\(([^)]+)\)/g; Image is /!\[([^\]]*)\]\(([^)]+)\)/g;
   * Code is /`([^`]+)`/g.
   */
  datatype Pattern =
    | Emphasis(delim: string, open: string, close: string)
    | Link
    | Image
    | Code

  predicate WellFormed(p: Pattern) {
    p.Emphasis? ==> p.delim != []
  }

  /** The character every match of `p` starts with. */
  function Lead(p: Pattern): char
    requires WellFormed(p)
  {
    match p
    case Emphasis(d, _, _) => d[0]
    case Link => '['
    case Image => '!'
    case Code => '`'
  }

  /** A match at the start of the remaining text: how much it consumes and what it is replaced by. */
  datatype Match = Match(len: nat, out: string)

  /** The first `c` at or after `from`, or `|s|`: where `[^c]+` or `[^c]*` stops. */
  function CharFrom(s: string, c: char, from: nat): (i: nat)
    requires from <= |s|
    ensures from <= i <= |s|
    ensures i < |s| ==> s[i] == c
    ensures forall k :: from <= k < i ==> s[k] != c
    decreases |s| - from
  {
    if from == |s| || s[from] == c then from else CharFrom(s, c, from + 1)
  }

  /** Where the lazy `(.*?)` stops: the first `d` at or after `from` with no line terminator before it. */
  function LazyClose(s: string, d: string, from: nat): (r: Option<nat>)
    requires d != []
    ensures r.Some? ==> from <= r.value && OccursAt(s, r.value, d)
    ensures r.Some? ==> forall k :: from <= k < r.value ==> !OccursAt(s, k, d) && !IsLineTerminator(s[k])
    decreases |s| - from
  {
    if OccursAt(s, from, d) then Some(from)
    else if from >= |s| || IsLineTerminator(s[from]) then None
    else LazyClose(s, d, from + 1)
  }

  /** `d(.*?)d` at the start of `s`. */
  function MatchEmphasis(d: string, o: string, c: string, s: string): (r: Option<Match>)
    requires d != []
    ensures r.Some? ==> 0 < r.value.len <= |s| && s[0] == d[0]
  {
    if !OccursAt(s, 0, d) then None
    else
      assert s[0] == s[0..|d|][0];
      match LazyClose(s, d, |d|)
      case None => None
      case Some(k) => Some(Match(k + |d|, o + s[|d|..k] + c))
  }

  /** `\[([^\]]+)\]\(([^)]+)\)` at the start of `s`. */
  function MatchLink(s: string): (r: Option<Match>)
    ensures r.Some? ==> 0 < r.value.len <= |s| && s[0] == '['
  {
    if s == [] || s[0] != '[' then None
    else
      var j := CharFrom(s, ']', 1);
      if j < 2 || j + 1 >= |s| || s[j + 1] != '(' then None
      else
        var k := CharFrom(s, ')', j + 2);
        if k < j + 3 || k >= |s| then None
        else Some(Match(k + 1, Anchor(s[j + 2..k], s[1..j])))
  }

  /** `!\[([^\]]*)\]\(([^)]+)\)` at the start of `s`. */
  function MatchImage(s: string): (r: Option<Match>)
    ensures r.Some? ==> 0 < r.value.len <= |s| && s[0] == '!'
  {
    if |s| < 2 || s[0] != '!' || s[1] != '[' then None
    else
      var j := CharFrom(s, ']', 2);
      if j + 1 >= |s| || s[j + 1] != '(' then None
      else
        var k := CharFrom(s, ')', j + 2);
        if k < j + 3 || k >= |s| then None
        else Some(Match(k + 1, Img(s[j + 2..k], s[2..j])))
  }

  /** `` `([^`]+)` `` at the start of `s`. */
  function MatchCode(s: string): (r: Option<Match>)
    ensures r.Some? ==> 0 < r.value.len <= |s| && s[0] == '`'
  {
    if s == [] || s[0] != '`' then None
    else
      var j := CharFrom(s, '`', 1);
      if j < 2 || j >= |s| then None
      else Some(Match(j + 1, "<code>" + s[1..j] + "</code>"))
  }

  /** A match of `p` at the start of `s`, if there is one. */
  function MatchAt(p: Pattern, s: string): (r: Option<Match>)
    requires WellFormed(p)
    ensures r.Some? ==> 0 < r.value.len <= |s| && s[0] == Lead(p)
  {
    match p
    case Emphasis(d, o, c) => MatchEmphasis(d, o, c, s)
    case Link => MatchLink(s)
    case Image => MatchImage(s)
    case Code => MatchCode(s)
  }

  /** One step of a global replacement: the text a match at the start of `s` yields, or the first character, and where scanning resumes. */
  lemma ReplaceAllStep(p: Pattern, s: string)
    requires WellFormed(p) && s != []
    ensures MatchAt(p, s).Some? ==>
      ReplaceAll(p, s) == MatchAt(p, s).value.out + ReplaceAll(p, s[MatchAt(p, s).value.len..])
    ensures MatchAt(p, s).None? ==> ReplaceAll(p, s) == [s[0]] + ReplaceAll(p, s[1..])
  {
  }

  /** `s.replace(p, …)` with the `g` flag: scan left to right, replace each match, resume after it. */
  function ReplaceAll(p: Pattern, s: string): string
    requires WellFormed(p)
    decreases |s|
  {
    if s == [] then ""
    else match MatchAt(p, s)
      case Some(m) => m.out + ReplaceAll(p, s[m.len..])
      case None => [s[0]] + ReplaceAll(p, s[1..])
  }

  const BoldItalic := Emphasis("***", "<strong><em>", "</em></strong>")
  const BoldStars := Emphasis("**", "<strong>", "</strong>")
  const BoldUnderscores := Emphasis("__", "<strong>", "</strong>")
  const ItalicStar := Emphasis("*", "<em>", "</em>")
  const ItalicUnderscore := Emphasis("_", "<em>", "</em>")

  /** The inline passes in source order; they leave inert text alone. */
  function Inline(s: string): (r: string)
    ensures Inert(s) ==> r == s
  {
    assert Inert(s) ==> ReplaceAll(Code, ReplaceAll(Image, ReplaceAll(Link, ReplaceAll(ItalicUnderscore,
        ReplaceAll(ItalicStar, ReplaceAll(BoldUnderscores, ReplaceAll(BoldStars, ReplaceAll(BoldItalic, s)))))))) == s by {
      if Inert(s) {
        Untouched(BoldItalic, s);
        Untouched(BoldStars, s);
        Untouched(BoldUnderscores, s);
        Untouched(ItalicStar, s);
        Untouched(ItalicUnderscore, s);
        Untouched(Link, s);
        Untouched(Image, s);
        Untouched(Code, s);
      }
    }
    var a := ReplaceAll(BoldItalic, s);
    var b := ReplaceAll(BoldStars, a);
    var c := ReplaceAll(BoldUnderscores, b);
    var d := ReplaceAll(ItalicStar, c);
    var e := ReplaceAll(ItalicUnderscore, d);
    var f := ReplaceAll(Link, e);
    var g := ReplaceAll(Image, f);
    ReplaceAll(Code, g)
  }

  /** A pass leaves text that does not contain its leading character alone. */
  lemma {:induction false} Untouched(p: Pattern, s: string)
    requires WellFormed(p) && Lead(p) !in s
    ensures ReplaceAll(p, s) == s
    decreases |s|
  {
    if s != [] {
      assert s[0] in s;
      assert Lead(p) !in s[1..];
      ReplaceAllStep(p, s);
      Untouched(p, s[1..]);
      assert s == [s[0]] + s[1..];
    }
  }

  /** A pass copies a prefix that does not contain its leading character and carries on after it. */
  lemma {:induction false} CopiesPrefix(p: Pattern, x: string, rest: string)
    requires WellFormed(p) && Lead(p) !in x
    ensures ReplaceAll(p, x + rest) == x + ReplaceAll(p, rest)
    decreases |x|
  {
    if x != [] {
      var s := x + rest;
      assert x[0] in x;
      assert s[0] == x[0];
      assert s[1..] == x[1..] + rest;
      assert Lead(p) !in x[1..];
      assert MatchAt(p, s).None?;
      ReplaceAllStep(p, s);
      CopiesPrefix(p, x[1..], rest);
      calc {
        ReplaceAll(p, s);
        [x[0]] + ReplaceAll(p, x[1..] + rest);
        [x[0]] + (x[1..] + ReplaceAll(p, rest));
        { assert x == [x[0]] + x[1..]; }
        x + ReplaceAll(p, rest);
      }
    } else {
      assert x + rest == rest;
    }
  }

  /** An emphasis pass turns `d x d` into the tagged `x` when `x` stays on one line and holds no `d`-character. */
  lemma EmphasisReplaced(p: Pattern, x: string, rest: string)
    requires p.Emphasis? && p.delim != []
    requires NoTerminator(x) && p.delim[0] !in x
    ensures ReplaceAll(p, p.delim + x + p.delim + rest) == p.open + x + p.close + ReplaceAll(p, rest)
  {
    var s := p.delim + x + p.delim + rest;
    var n := |p.delim| + |x|;
    EmphasisMatch(p, x, rest);
    assert s[n + |p.delim|..] == rest;
    ReplacedByMatch(p, s, Match(n + |p.delim|, p.open + x + p.close), rest);
  }

  /** A match at the start is replaced, and the pass carries on with what follows it. */
  lemma ReplacedByMatch(p: Pattern, s: string, m: Match, rest: string)
    requires WellFormed(p) && s != [] && MatchAt(p, s) == Some(m) && s[m.len..] == rest
    ensures ReplaceAll(p, s) == m.out + ReplaceAll(p, rest)
  {
    ReplaceAllStep(p, s);
  }

  lemma EmphasisMatch(p: Pattern, x: string, rest: string)
    requires p.Emphasis? && p.delim != []
    requires NoTerminator(x) && p.delim[0] !in x
    ensures MatchAt(p, p.delim + x + p.delim + rest) == Some(Match(|p.delim| + |x| + |p.delim|, p.open + x + p.close))
  {
    var d := p.delim;
    var s := d + x + d + rest;
    var n := |d| + |x|;
    assert OccursAt(s, 0, d) by {
      assert s[0..|d|] == d;
    }
    assert OccursAt(s, n, d) by {
      assert s[n..n + |d|] == d;
    }
    forall k | |d| <= k < n
      ensures s[k] != d[0] && !IsLineTerminator(s[k])
    {
      assert s[k] == x[k - |d|];
    }
    LazyCloseFinds(s, d, |d|, n);
    assert s[|d|..n] == x;
  }

  lemma {:induction false} LazyCloseFinds(s: string, d: string, from: nat, n: nat)
    requires d != [] && from <= n <= |s| && OccursAt(s, n, d)
    requires forall k :: from <= k < n ==> s[k] != d[0] && !IsLineTerminator(s[k])
    ensures LazyClose(s, d, from) == Some(n)
    decreases n - from
  {
    if from < n {
      if from + |d| <= |s| {
        assert s[from..from + |d|][0] == s[from];
      }
      LazyCloseFinds(s, d, from + 1, n);
    }
  }

  /**
   * The lazy scan fails exactly when `d` occurs nowhere from `from` up to the
   * end of the line (the line terminator itself included), and what it finds
   * lies within the line.
   */
  lemma {:induction false} LazyCloseNone(s: string, d: string, from: nat)
    requires d != [] && from <= |s|
    ensures LazyClose(s, d, from).Some? ==> LazyClose(s, d, from).value <= from + LineEnd(s[from..])
    ensures LazyClose(s, d, from).None? <==>
      forall k :: from <= k <= from + LineEnd(s[from..]) ==> !OccursAt(s, k, d)
    decreases |s| - from
  {
    var t := s[from..];
    if OccursAt(s, from, d) {
    } else if from == |s| || IsLineTerminator(s[from]) {
      assert t == [] || t[0] == s[from];
      assert LineEnd(t) == 0;
    } else {
      LazyCloseNone(s, d, from + 1);
      assert t[0] == s[from] && t[1..] == s[from + 1..];
      assert LineEnd(t) == 1 + LineEnd(s[from + 1..]);
    }
  }

  /**
   * `d(.*?)d` at the start of `s`: there is no match exactly when `s` does not
   * open with `d` or no `d` closes it on the same line.
   */
  lemma MatchEmphasisNone(d: string, o: string, c: string, s: string)
    requires d != []
    ensures MatchEmphasis(d, o, c, s).None? <==>
      !OccursAt(s, 0, d) || forall k :: |d| <= k <= |d| + LineEnd(s[|d|..]) ==> !OccursAt(s, k, d)
  {
    if OccursAt(s, 0, d) {
      LazyCloseNone(s, d, |d|);
    }
  }

  /**
   * A match runs to the first closing `d`, holds no line terminator, and is
   * replaced by the text between the delimiters wrapped in `o` and `c`.
   */
  lemma MatchEmphasisFound(d: string, o: string, c: string, s: string)
    requires d != [] && MatchEmphasis(d, o, c, s).Some?
    ensures var m := MatchEmphasis(d, o, c, s).value;
      var n := m.len - |d|;
      |d| <= n && OccursAt(s, 0, d) && OccursAt(s, n, d) && NoTerminator(s[|d|..n])
      && (forall k :: |d| <= k < n ==> !OccursAt(s, k, d))
      && m.out == o + s[|d|..n] + c
  {
    var n := LazyClose(s, d, |d|).value;
    var x := s[|d|..n];
    forall i | 0 <= i < |x|
      ensures !IsLineTerminator(x[i])
    {
      assert x[i] == s[|d| + i];
    }
  }

  /** `**` that no `**` closes is no emphasis: the bold pass copies it. */
  lemma UnclosedBoldCopied(x: string)
    requires '*' !in x
    ensures ReplaceAll(BoldStars, "**" + x) == "**" + x
  {
    var s := "**" + x;
    var t := "*" + x;
    assert s[1..] == t && t[1..] == x;
    UnclosedBoldNoMatch(x);
    CopiedFirst(BoldStars, s, t);
    assert !OccursAt(t, 0, "**") by {
      if 2 <= |t| {
        assert t[0..2][1] == t[1] == x[0];
      }
    }
    CopiedFirst(BoldStars, t, x);
    Untouched(BoldStars, x);
  }

  lemma UnclosedBoldNoMatch(x: string)
    requires '*' !in x
    ensures MatchAt(BoldStars, "**" + x).None?
  {
    var s := "**" + x;
    forall k | 2 <= k <= 2 + LineEnd(s[2..])
      ensures !OccursAt(s, k, "**")
    {
      if k + 2 <= |s| {
        assert s[k..k + 2][0] == s[k] == x[k - 2];
      }
    }
    MatchEmphasisNone("**", "<strong>", "</strong>", s);
  }

  /** Where no match starts, the pass copies the first character and carries on with the rest. */
  lemma CopiedFirst(p: Pattern, s: string, tail: string)
    requires WellFormed(p) && s != [] && MatchAt(p, s).None? && s[1..] == tail
    ensures ReplaceAll(p, s) == [s[0]] + ReplaceAll(p, tail)
  {
    ReplaceAllStep(p, s);
  }

  /** What the link pattern matches: `[t](u)`, with `t` free of `]` and `u` free of `)`, both non-empty. */
  lemma MatchLinkOf(t: string, u: string, rest: string)
    requires t != [] && ']' !in t && u != [] && ')' !in u
    ensures MatchLink("[" + t + "](" + u + ")" + rest) == Some(Match(|t| + |u| + 4, Anchor(u, t)))
  {
    var s := "[" + t + "](" + u + ")" + rest;
    var j := |t| + 1;
    var k := j + 2 + |u|;
    assert s[1..j] == t;
    assert s[j] == ']' && s[j + 1] == '(';
    assert s[j + 2..k] == u;
    assert s[k] == ')';
    forall i | 1 <= i < j
      ensures s[i] != ']'
    {
      assert s[i] == t[i - 1];
      assert t[i - 1] in t;
    }
    forall i | j + 2 <= i < k
      ensures s[i] != ')'
    {
      assert s[i] == u[i - j - 2];
      assert u[i - j - 2] in u;
    }
    CharFromFinds(s, ']', 1, j);
    CharFromFinds(s, ')', j + 2, k);
  }

  /**
   * Every link match has that form: `[` at the start, the first `]` after it
   * at `j` followed by `(`, the next `)` closing the match, and the
   * replacement is the anchor built from the two runs between them. With
   * `MatchLinkOf`, a link matches exactly when the text opens with such a
   * `[t](u)`; `MatchLinkFree` and `LinkSlices` give the rest of the shape.
   */
  lemma MatchLinkShape(s: string)
    requires MatchLink(s).Some?
    ensures var m := MatchLink(s).value;
      var j := CharFrom(s, ']', 1);
      2 <= j && j + 4 <= m.len <= |s|
      && s[0] == '[' && s[j] == ']' && s[j + 1] == '(' && s[m.len - 1] == ')'
      && m.out == Anchor(s[j + 2..m.len - 1], s[1..j])
  {
    MatchLinkOut(s);
    MatchLinkBounds(s);
    MatchLinkChars(s);
  }

  lemma MatchLinkOut(s: string)
    requires MatchLink(s).Some?
    ensures var m := MatchLink(s).value;
      var j := CharFrom(s, ']', 1);
      m.out == Anchor(s[j + 2..m.len - 1], s[1..j])
  {
  }

  lemma MatchLinkBounds(s: string)
    requires MatchLink(s).Some?
    ensures var m := MatchLink(s).value;
      var j := CharFrom(s, ']', 1);
      2 <= j && j + 4 <= m.len <= |s| && m.len - 1 == CharFrom(s, ')', j + 2)
  {
  }

  lemma MatchLinkChars(s: string)
    requires MatchLink(s).Some?
    ensures var m := MatchLink(s).value;
      var j := CharFrom(s, ']', 1);
      s[0] == '[' && s[j] == ']' && s[j + 1] == '(' && s[m.len - 1] == ')'
  {
  }

  /** The link text of a match holds no `]`, and its address no `)`. */
  lemma MatchLinkFree(s: string)
    requires MatchLink(s).Some?
    ensures var m := MatchLink(s).value;
      var j := CharFrom(s, ']', 1);
      2 <= j && j + 4 <= m.len <= |s|
      && ']' !in s[1..j] && ')' !in s[j + 2..m.len - 1]
  {
    MatchLinkBounds(s);
    var m := MatchLink(s).value;
    var j := CharFrom(s, ']', 1);
    NoCharIn(s, ']', 1, j);
    NoCharIn(s, ')', j + 2, m.len - 1);
  }

  /** A prefix of `s` is the shorter prefix followed by the slice between them. */
  lemma SliceAt(s: string, a: nat, b: nat)
    requires a <= b <= |s|
    ensures s[..b] == s[..a] + s[a..b]
  {
  }

  /** Text with the characters a link match checks, at the places it checks them, opens with `[t](u)`. */
  lemma LinkSlices(s: string, j: nat, k: nat)
    requires 1 <= j && j + 2 <= k < |s|
    requires s[0] == '[' && s[j] == ']' && s[j + 1] == '(' && s[k] == ')'
    ensures s[..k + 1] == "[" + s[1..j] + "](" + s[j + 2..k] + ")"
  {
    SliceAt(s, 1, j);
    SliceAt(s, j, j + 2);
    SliceAt(s, j + 2, k);
    SliceAt(s, k, k + 1);
    assert s[..1] == "[";
    assert s[j..j + 2] == "](";
    assert s[k..k + 1] == ")";
  }

  /** The same for an image match, which opens with `![`. */
  lemma ImageSlices(s: string, j: nat, k: nat)
    requires 2 <= j && j + 2 <= k < |s|
    requires s[0] == '!' && s[1] == '[' && s[j] == ']' && s[j + 1] == '(' && s[k] == ')'
    ensures s[..k + 1] == "![" + s[2..j] + "](" + s[j + 2..k] + ")"
  {
    SliceAt(s, 2, j);
    SliceAt(s, j, j + 2);
    SliceAt(s, j + 2, k);
    SliceAt(s, k, k + 1);
    assert s[..2] == "![";
    assert s[j..j + 2] == "](";
    assert s[k..k + 1] == ")";
  }

  /** A stretch that `CharFrom` skipped holds no `c`. */
  lemma NoCharIn(s: string, c: char, from: nat, i: nat)
    requires from <= i <= |s|
    requires forall k :: from <= k < i ==> s[k] != c
    ensures c !in s[from..i]
  {
    var x := s[from..i];
    forall n | 0 <= n < |x|
      ensures x[n] != c
    {
      assert x[n] == s[from + n];
    }
  }

  /** "[t]" not followed by "(" is no link: the pass copies it. */
  lemma NotALink(t: string, rest: string)
    requires t != [] && ']' !in t && '[' !in t && '[' !in rest
    requires rest == [] || rest[0] != '('
    ensures ReplaceAll(Link, "[" + t + "]" + rest) == "[" + t + "]" + rest
  {
    var tail := t + "]" + rest;
    assert '[' !in tail;
    Untouched(Link, tail);
    BracketCopied(t, rest);
    Assoc("[", t + "]", rest);
    Assoc("[", t, "]");
  }

  lemma BracketCopied(t: string, rest: string)
    requires t != [] && ']' !in t
    requires rest == [] || rest[0] != '('
    ensures ReplaceAll(Link, "[" + t + "]" + rest) == "[" + ReplaceAll(Link, t + "]" + rest)
  {
    var s := "[" + t + "]" + rest;
    var tail := t + "]" + rest;
    assert s[1..] == tail;
    NoLinkMatch(t, rest);
    CopiedFirst(Link, s, tail);
  }

  lemma NoLinkMatch(t: string, rest: string)
    requires t != [] && ']' !in t
    requires rest == [] || rest[0] != '('
    ensures MatchLink("[" + t + "]" + rest).None?
  {
    var s := "[" + t + "]" + rest;
    var j := |t| + 1;
    assert s[j] == ']';
    forall i | 1 <= i < j
      ensures s[i] != ']'
    {
      assert s[i] == t[i - 1];
      assert t[i - 1] in t;
    }
    CharFromFinds(s, ']', 1, j);
    assert j + 1 < |s| ==> s[j + 1] == rest[0];
  }

  /** The link pass turns `[t](u)` into an anchor when `t` has no `]` and `u` has no `)`. */
  lemma LinkReplaced(t: string, u: string, rest: string)
    requires t != [] && ']' !in t && u != [] && ')' !in u
    ensures ReplaceAll(Link, "[" + t + "](" + u + ")" + rest) == Anchor(u, t) + ReplaceAll(Link, rest)
  {
    var s := "[" + t + "](" + u + ")" + rest;
    MatchLinkOf(t, u, rest);
    ReplaceAllStep(Link, s);
    assert s[|t| + |u| + 4..] == rest;
  }

  lemma {:induction false} CharFromFinds(s: string, c: char, from: nat, n: nat)
    requires from <= n < |s| && s[n] == c
    requires forall k :: from <= k < n ==> s[k] != c
    ensures CharFrom(s, c, from) == n
    decreases n - from
  {
    if from < n {
      CharFromFinds(s, c, from + 1, n);
    }
  }

  /** What the image pattern matches: `![a](u)`, with `a` free of `]` (possibly empty) and `u` free of `)` and non-empty. */
  lemma MatchImageOf(a: string, u: string, rest: string)
    requires ']' !in a && u != [] && ')' !in u
    ensures MatchImage("![" + a + "](" + u + ")" + rest) == Some(Match(|a| + |u| + 5, Img(u, a)))
  {
    var s := "![" + a + "](" + u + ")" + rest;
    var j := |a| + 2;
    var k := j + 2 + |u|;
    assert s[0] == '!' && s[1] == '[';
    assert s[2..j] == a;
    assert s[j] == ']' && s[j + 1] == '(';
    assert s[j + 2..k] == u;
    assert s[k] == ')';
    CharFromFinds(s, ']', 2, j);
    CharFromFinds(s, ')', j + 2, k);
  }

  /**
   * Every image match has that form: `![` at the start, the first `]` after
   * it followed by `(`, the next `)` closing the match, and the replacement
   * is the `<img>` element built from the two runs between them.
   */
  lemma MatchImageShape(s: string)
    requires MatchImage(s).Some?
    ensures var m := MatchImage(s).value;
      var j := CharFrom(s, ']', 2);
      2 <= j && j + 4 <= m.len <= |s|
      && s[0] == '!' && s[1] == '[' && s[j] == ']' && s[j + 1] == '(' && s[m.len - 1] == ')'
      && m.out == Img(s[j + 2..m.len - 1], s[2..j])
  {
    MatchImageOut(s);
    MatchImageBounds(s);
    MatchImageChars(s);
  }

  lemma MatchImageOut(s: string)
    requires MatchImage(s).Some?
    ensures var m := MatchImage(s).value;
      var j := CharFrom(s, ']', 2);
      m.out == Img(s[j + 2..m.len - 1], s[2..j])
  {
  }

  lemma MatchImageBounds(s: string)
    requires MatchImage(s).Some?
    ensures var m := MatchImage(s).value;
      var j := CharFrom(s, ']', 2);
      2 <= j && j + 4 <= m.len <= |s| && m.len - 1 == CharFrom(s, ')', j + 2)
  {
  }

  lemma MatchImageChars(s: string)
    requires MatchImage(s).Some?
    ensures var m := MatchImage(s).value;
      var j := CharFrom(s, ']', 2);
      s[0] == '!' && s[1] == '[' && s[j] == ']' && s[j + 1] == '(' && s[m.len - 1] == ')'
  {
  }

  /** The alt text of an image match holds no `]`, and its address no `)`. */
  lemma MatchImageFree(s: string)
    requires MatchImage(s).Some?
    ensures var m := MatchImage(s).value;
      var j := CharFrom(s, ']', 2);
      2 <= j && j + 4 <= m.len <= |s|
      && ']' !in s[2..j] && ')' !in s[j + 2..m.len - 1]
  {
    MatchImageBounds(s);
    var m := MatchImage(s).value;
    var j := CharFrom(s, ']', 2);
    NoCharIn(s, ']', 2, j);
    NoCharIn(s, ')', j + 2, m.len - 1);
  }

  /** The image pass turns `![a](u)` into an `<img>` when `a` has no `]` and `u` has no `)`. */
  lemma ImageReplaced(a: string, u: string, rest: string)
    requires ']' !in a && u != [] && ')' !in u
    ensures ReplaceAll(Image, "![" + a + "](" + u + ")" + rest) == Img(u, a) + ReplaceAll(Image, rest)
  {
    var s := "![" + a + "](" + u + ")" + rest;
    MatchImageOf(a, u, rest);
    ReplaceAllStep(Image, s);
    assert s[|a| + |u| + 5..] == rest;
  }

  /** What the code pattern matches: a back-quoted, non-empty `x` free of backquotes. */
  lemma MatchCodeOf(x: string, rest: string)
    requires x != [] && '`' !in x
    ensures MatchCode("`" + x + "`" + rest) == Some(Match(|x| + 2, "<code>" + x + "</code>"))
  {
    var s := "`" + x + "`" + rest;
    assert s[1..|x| + 1] == x;
    CharFromFinds(s, '`', 1, |x| + 1);
  }

  /** Every code match has that form, and is replaced by the code span. */
  lemma MatchCodeShape(s: string)
    requires MatchCode(s).Some?
    ensures var m := MatchCode(s).value;
      3 <= m.len <= |s|
      && m.out == "<code>" + s[1..m.len - 1] + "</code>"
      && '`' !in s[1..m.len - 1]
      && s[..m.len] == "`" + s[1..m.len - 1] + "`"
  {
    var m := MatchCode(s).value;
    var j := m.len - 1;
    assert j == CharFrom(s, '`', 1);
    NoCharIn(s, '`', 1, j);
    SliceAt(s, 1, j);
    SliceAt(s, j, j + 1);
    assert s[..1] == [s[0]] == "`" && s[j..j + 1] == [s[j]] == "`";
  }

  /** The code pass turns a back-quoted `x` into a code span. */
  lemma CodeReplaced(x: string, rest: string)
    requires x != [] && '`' !in x
    ensures ReplaceAll(Code, "`" + x + "`" + rest) == "<code>" + x + "</code>" + ReplaceAll(Code, rest)
  {
    var s := "`" + x + "`" + rest;
    MatchCodeOf(x, rest);
    ReplaceAllStep(Code, s);
    assert s[|x| + 2..] == rest;
  }

  /**
   * Because links are rewritten first, an image with alt text becomes a `!`
   * followed by an anchor, and the image pass never sees it.
   */
  lemma ImageWithAltBecomesLink(a: string, u: string)
    requires a != [] && ']' !in a && '!' !in a && u != [] && ')' !in u && '!' !in u
    ensures ReplaceAll(Image, ReplaceAll(Link, "![" + a + "](" + u + ")")) == "!" + Anchor(u, a)
  {
    var anchor := Anchor(u, a);
    BangLinkToAnchor(a, u);
    assert anchor[0] == '<';
    assert '!' !in anchor;
    BangAnchorNoImage(anchor);
  }

  /** What the link pass writes for `[t](u)`. */
  function Anchor(u: string, t: string): string {
    "<a href=\"" + u + "\">" + t + "</a>"
  }

  /** What the image pass writes for `![a](u)`. */
  function Img(u: string, a: string): string {
    "<img src=\"" + u + "\" alt=\"" + a + "\" />"
  }

  lemma BangLinkToAnchor(a: string, u: string)
    requires a != [] && ']' !in a && u != [] && ')' !in u
    ensures ReplaceAll(Link, "![" + a + "](" + u + ")") == "!" + Anchor(u, a)
  {
    var link := "[" + a + "](" + u + ")";
    assert "![" + a + "](" + u + ")" == "!" + link;
    CopiesPrefix(Link, "!", link);
    LinkReplaced(a, u, "");
    assert link + "" == link;
  }

  lemma BangAnchorNoImage(anchor: string)
    requires anchor != [] && anchor[0] == '<' && '!' !in anchor
    ensures ReplaceAll(Image, "!" + anchor) == "!" + anchor
  {
    var t := "!" + anchor;
    assert t[1] == '<';
    assert MatchAt(Image, t).None?;
    ReplaceAllStep(Image, t);
    assert t[1..] == anchor;
    Untouched(Image, anchor);
  }

  /** An image with empty alt text passes the link pass untouched and becomes an `<img>`. */
  lemma ImageWithoutAltBecomesImg(u: string)
    requires u != [] && ')' !in u && '[' !in u
    ensures ReplaceAll(Image, ReplaceAll(Link, "![](" + u + ")")) == Img(u, "")
  {
    EmptyAltSkipsLink(u);
    ImageReplaced("", u, "");
    assert "![](" + u + ")" == "![" + "" + "](" + u + ")" + "";
  }

  lemma EmptyAltSkipsLink(u: string)
    requires '[' !in u
    ensures ReplaceAll(Link, "![](" + u + ")") == "![](" + u + ")"
  {
    var tail := "](" + u + ")";
    var bracket := "[" + tail;
    assert "![](" + u + ")" == "!" + bracket;
    CopiesPrefix(Link, "!", bracket);
    assert bracket[1] == ']';
    CharFromFinds(bracket, ']', 1, 1);
    assert MatchAt(Link, bracket).None?;
    ReplaceAllStep(Link, bracket);
    assert bracket[1..] == tail;
    assert '[' !in tail;
    Untouched(Link, tail);
  }

  // ---------------------------------------------------------------------
  // Paragraph stage
  // ---------------------------------------------------------------------

  /** A block that already opens with a block-level tag. */
  predicate IsBlockTag(b: string) {
    StartsWith(b, "<h") || StartsWith(b, "<img") || StartsWith(b, "<ul") || StartsWith(b, "<ol")
  }

  /** A block is left as it is when it opens with a block tag; otherwise it becomes a paragraph with `<br>` line breaks. */
  function RenderBlock(b: string): (r: string)
    ensures IsBlockTag(b) ==> r == b
    ensures !IsBlockTag(b) ==> r == "<p>" + ReplaceCharBy(b, '\n', "<br>") + "</p>"
    ensures !IsBlockTag(b) ==> StartsWith(r, "<p>") && EndsWith(r, "</p>") && '\n' !in r
  {
    if IsBlockTag(b) then b
    else
      var inner := ReplaceCharBy(b, '\n', "<br>");
      var r := "<p>" + inner + "</p>";
      assert r[..3] == "<p>";
      assert r[|r| - 4..] == "</p>";
      r
  }

  /** The trimmed, non-empty pieces, in order. */
  function Blocks(pieces: seq<string>): (r: seq<string>)
    ensures |r| <= |pieces|
    ensures forall i :: 0 <= i < |r| ==> r[i] != ""
  {
    if pieces == [] then []
    else
      var b := Trim(pieces[0]);
      (if b == "" then [] else [b]) + Blocks(pieces[1..])
  }

  /**
   * The stage works piece by piece: the blocks of two runs of pieces are the
   * blocks of each, and one piece gives its trimmed text unless that is
   * empty. So the blocks are the trimmed pieces, in order, with the empty
   * ones dropped.
   */
  lemma {:induction false} BlocksAppend(a: seq<string>, b: seq<string>)
    ensures Blocks(a + b) == Blocks(a) + Blocks(b)
    decreases |a|
  {
    if a == [] {
      assert a + b == b;
    } else {
      assert (a + b)[0] == a[0];
      assert (a + b)[1..] == a[1..] + b;
      BlocksAppend(a[1..], b);
    }
  }

  lemma BlocksOne(p: string)
    ensures Blocks([p]) == if Trim(p) == "" then [] else [Trim(p)]
  {
    assert [p][1..] == [];
  }

  function RenderBlocks(bs: seq<string>): (r: seq<string>)
    ensures |r| == |bs|
    ensures forall i :: 0 <= i < |bs| ==> r[i] == RenderBlock(bs[i])
  {
    if bs == [] then [] else [RenderBlock(bs[0])] + RenderBlocks(bs[1..])
  }

  /** Split on blank lines, trim, drop empty blocks, render each block, and join with single newlines. */
  function Paragraphs(s: string): string {
    Join(RenderBlocks(Blocks(Split(s, "\n\n"))), "\n")
  }

  // ---------------------------------------------------------------------
  // The whole chain
  // ---------------------------------------------------------------------

  /** One link of the chain: a header pass, an inline pass or the paragraph stage. */
  datatype Step = HeaderStep(level: Level) | InlineStep(pattern: Pattern) | ParagraphStep

  predicate ValidStep(st: Step) {
    st.InlineStep? ==> WellFormed(st.pattern)
  }

  function RunStep(st: Step, s: string): string
    requires ValidStep(st)
  {
    match st
    case HeaderStep(l) => HeaderPass(l, s)
    case InlineStep(p) => ReplaceAll(p, s)
    case ParagraphStep => Paragraphs(s)
  }

  /** Runs `steps` one after the other, each on the output of the one before. */
  function RunSteps(steps: seq<Step>, s: string): string
    requires forall st :: st in steps ==> ValidStep(st)
    decreases |steps|
  {
    if steps == [] then s else RunSteps(steps[1..], RunStep(steps[0], s))
  }

  const HeaderSteps: seq<Step> := [HeaderStep(H3), HeaderStep(H2), HeaderStep(H1)]

  const InlineSteps: seq<Step> := [
    InlineStep(BoldItalic), InlineStep(BoldStars), InlineStep(BoldUnderscores),
    InlineStep(ItalicStar), InlineStep(ItalicUnderscore),
    InlineStep(Link), InlineStep(Image), InlineStep(Code)]

  /** The chain in source order: three header passes, eight inline passes, then paragraphs. */
  const Chain: seq<Step> := HeaderSteps + InlineSteps + [ParagraphStep]

  /** The whole renderer: the header passes, then the inline passes, then the paragraph stage. */
  function Render(markdown: string): (r: string)
    ensures r == Paragraphs(Inline(Headers(markdown)))
  {
    ChainStages(markdown);
    RunSteps(Chain, markdown)
  }

  lemma {:induction false} RunStepsAppend(a: seq<Step>, b: seq<Step>, s: string)
    requires forall st :: st in a ==> ValidStep(st)
    requires forall st :: st in b ==> ValidStep(st)
    ensures RunSteps(a + b, s) == RunSteps(b, RunSteps(a, s))
    decreases |a|
  {
    if a == [] {
      assert a + b == b;
    } else {
      assert (a + b)[1..] == a[1..] + b;
      RunStepsAppend(a[1..], b, RunStep(a[0], s));
    }
  }

  lemma RunStepsAt(steps: seq<Step>, k: nat, s: string)
    requires k < |steps| && forall st :: st in steps ==> ValidStep(st)
    ensures RunSteps(steps[k..], s) == RunSteps(steps[k + 1..], RunStep(steps[k], s))
  {
    assert steps[k..][0] == steps[k];
    assert steps[k..][1..] == steps[k + 1..];
  }

  lemma RunHeaderSteps(s: string)
    ensures RunSteps(HeaderSteps, s) == Headers(s)
  {
    var hs := HeaderSteps;
    assert forall st :: st in hs ==> ValidStep(st);
    assert hs[0..] == hs;
    RunStepsAt(hs, 0, s);
    var s1 := HeaderPass(H3, s);
    RunStepsAt(hs, 1, s1);
    var s2 := HeaderPass(H2, s1);
    RunStepsAt(hs, 2, s2);
    assert hs[3..] == [];
  }

  lemma RunInlineSteps(s: string)
    ensures RunSteps(InlineSteps, s) == Inline(s)
  {
    var ps := InlineSteps;
    assert forall st :: st in ps ==> ValidStep(st);
    assert ps[0..] == ps;
    RunStepsAt(ps, 0, s);
    var s1 := ReplaceAll(BoldItalic, s);
    RunStepsAt(ps, 1, s1);
    var s2 := ReplaceAll(BoldStars, s1);
    RunStepsAt(ps, 2, s2);
    var s3 := ReplaceAll(BoldUnderscores, s2);
    RunStepsAt(ps, 3, s3);
    var s4 := ReplaceAll(ItalicStar, s3);
    RunStepsAt(ps, 4, s4);
    var s5 := ReplaceAll(ItalicUnderscore, s4);
    RunStepsAt(ps, 5, s5);
    var s6 := ReplaceAll(Link, s5);
    RunStepsAt(ps, 6, s6);
    var s7 := ReplaceAll(Image, s6);
    RunStepsAt(ps, 7, s7);
    assert ps[8..] == [];
  }

  /** The chain is the header passes, then the inline passes, then the paragraph stage. */
  lemma ChainStages(markdown: string)
    ensures (forall st :: st in Chain ==> ValidStep(st)) && RunSteps(Chain, markdown) == Paragraphs(Inline(Headers(markdown)))
  {
    assert forall st :: st in HeaderSteps ==> ValidStep(st);
    assert forall st :: st in InlineSteps ==> ValidStep(st);
    RunStepsAppend(HeaderSteps + InlineSteps, [ParagraphStep], markdown);
    RunStepsAppend(HeaderSteps, InlineSteps, markdown);
    RunHeaderSteps(markdown);
    RunInlineSteps(Headers(markdown));
    assert RunSteps([ParagraphStep], Inline(Headers(markdown))) == Paragraphs(Inline(Headers(markdown)));
  }

  /** A block as the paragraph stage sees it after splitting and trimming. */
  predicate CleanBlock(b: string) {
    b != [] && !IsSpace(b[0]) && !IsSpace(b[|b| - 1]) && Free(b, "\n\n")
  }

  lemma CleanBlockSeparable(b: string)
    requires CleanBlock(b)
    ensures Separable(b, "\n\n")
  {
    var s := b + "\n\n";
    forall k | 0 <= k < |b|
      ensures !OccursAt(s, k, "\n\n")
    {
      if k + 2 <= |b| {
        assert s[k..k + 2] == b[k..k + 2];
        assert !OccursAt(b, k, "\n\n");
      } else {
        assert s[k..k + 2][0] == b[|b| - 1];
      }
    }
  }

  lemma {:induction false} BlocksOfClean(bs: seq<string>)
    requires forall i :: 0 <= i < |bs| ==> CleanBlock(bs[i])
    ensures Blocks(bs) == bs
  {
    if bs != [] {
      TrimFixpoint(bs[0]);
      BlocksOfClean(bs[1..]);
      assert bs == [bs[0]] + bs[1..];
    }
  }

  /**
   * Blocks separated by blank lines are rendered each on its own and joined
   * with single newlines.
   */
  lemma ParagraphsOfBlocks(bs: seq<string>)
    requires bs != []
    requires forall i :: 0 <= i < |bs| ==> CleanBlock(bs[i])
    ensures Paragraphs(Join(bs, "\n\n")) == Join(RenderBlocks(bs), "\n")
  {
    forall i | 0 <= i < |bs| - 1
      ensures Separable(bs[i], "\n\n")
    {
      CleanBlockSeparable(bs[i]);
    }
    SplitJoin(bs, "\n\n");
    BlocksOfClean(bs);
  }

  /** An emphasis pass leaves text alone that holds no occurrence of its delimiter. */
  lemma {:induction false} UntouchedEmphasis(p: Pattern, s: string)
    requires p.Emphasis? && p.delim != [] && Free(s, p.delim)
    ensures ReplaceAll(p, s) == s
    decreases |s|
  {
    if s != [] {
      assert !OccursAt(s, 0, p.delim);
      ReplaceAllStep(p, s);
      SliceFree(s, 1, |s|, p.delim);
      assert s[1..|s|] == s[1..];
      UntouchedEmphasis(p, s[1..]);
      assert s == [s[0]] + s[1..];
    }
  }

  /** A piece that is free of the separator stays free when cut out. */
  lemma SliceFree(s: string, i: nat, j: nat, sep: string)
    requires i <= j <= |s| && Free(s, sep)
    ensures Free(s[i..j], sep)
  {
    var t := s[i..j];
    forall k | 0 <= k < |t|
      ensures !OccursAt(t, k, sep)
    {
      assert !OccursAt(s, i + k, sep);
      if k + |sep| <= |t| {
        assert s[i + k..i + k + |sep|] != sep;
        var m :| 0 <= m < |sep| && s[i + k..i + k + |sep|][m] != sep[m];
        assert t[k..k + |sep|][m] == s[i + k + m];
      }
    }
  }

  lemma TrimFree(p: string)
    requires Free(p, "\n\n")
    ensures Free(Trim(p), "\n\n")
  {
    var t := TrimStart(p);
    TrimStartSuffix(p);
    SliceFree(p, |p| - |t|, |p|, "\n\n");
    assert p[|p| - |t|..|p|] == t;
    var b := TrimEnd(t);
    SliceFree(t, 0, |b|, "\n\n");
    assert t[0..|b|] == b;
  }

  /** Every block of pieces that hold no blank line is clean. */
  predicate AllClean(bs: seq<string>) {
    forall i :: 0 <= i < |bs| ==> CleanBlock(bs[i])
  }

  lemma TrimClean(p: string)
    requires Free(p, "\n\n") && Trim(p) != ""
    ensures CleanBlock(Trim(p))
  {
    TrimFree(p);
    var t := TrimStart(p);
    var b := TrimEnd(t);
    assert b[0] == t[0];
  }

  lemma {:induction false} BlocksOfFreePieces(pieces: seq<string>)
    requires forall j :: 0 <= j < |pieces| ==> Free(pieces[j], "\n\n")
    ensures AllClean(Blocks(pieces))
  {
    if pieces != [] {
      var b := Trim(pieces[0]);
      if b != "" {
        TrimClean(pieces[0]);
      }
      BlocksOfFreePieces(pieces[1..]);
      var head := if b == "" then [] else [b];
      var tail := Blocks(pieces[1..]);
      assert Blocks(pieces) == head + tail;
      forall k | 0 <= k < |head + tail|
        ensures CleanBlock((head + tail)[k])
      {
        if k >= |head| {
          assert (head + tail)[k] == tail[k - |head|];
        }
      }
    }
  }

  /** Every block the paragraph stage renders is non-empty, trimmed, and holds no blank line. */
  lemma BlocksAreClean(s: string)
    ensures AllClean(Blocks(Split(s, "\n\n")))
  {
    SplitPiecesFree(s, "\n\n");
    BlocksOfFreePieces(Split(s, "\n\n"));
  }

  /** `s` holds no character that an inline pattern starts with. */
  predicate Inert(s: string) {
    forall k :: 0 <= k < |s| ==>
      s[k] != '*' && s[k] != '_' && s[k] != '[' && s[k] != '!' && s[k] != '`'
  }

  /** Text that no inline pattern touches, that cannot close a link, and that stays on one line. */
  predicate Plain(x: string) {
    x != [] && NoTerminator(x) && Inert(x) && forall k :: 0 <= k < |x| ==> x[k] != ']' && x[k] != ')'
  }

  lemma Cat(x: string, y: string)
    ensures NoTerminator(x) && NoTerminator(y) ==> NoTerminator(x + y)
    ensures Inert(x) && Inert(y) ==> Inert(x + y)
  {
    forall k | |x| <= k < |x + y|
      ensures (x + y)[k] == y[k - |x|]
    {
    }
  }

  /** A one-line block with no whitespace at its ends is rendered by `RenderBlock` alone. */
  lemma OneBlock(b: string)
    requires b != [] && NoTerminator(b) && !IsSpace(b[0]) && !IsSpace(b[|b| - 1])
    ensures Paragraphs(b) == RenderBlock(b)
  {
    forall k | 0 <= k < |b|
      ensures !OccursAt(b, k, "\n\n")
    {
      if k + 2 <= |b| {
        assert b[k..k + 2][0] == b[k];
      }
    }
    ParagraphsOfBlocks([b]);
  }

  /** A one-line block that is not a block tag becomes one paragraph. */
  lemma OneParagraph(b: string)
    requires b != [] && NoTerminator(b) && !IsSpace(b[0]) && !IsSpace(b[|b| - 1]) && !IsBlockTag(b)
    ensures Paragraphs(b) == "<p>" + b + "</p>"
  {
    OneBlock(b);
    assert '\n' !in b;
  }

  /** `# t` on one line is turned into an `<h1>` element by the header passes. */
  lemma HeadingLine(t: string)
    requires NoTerminator(t)
    ensures Headers("# " + t) == "<h1>" + t + "</h1>"
  {
    var line := "# " + t;
    Cat("# ", t);
    assert line[..2] == "# ";
    assert line[1] == ' ';
    assert !StartsWith(line, "## ") by {
      if |line| >= 3 { assert line[..3][1] == ' '; }
    }
    assert !StartsWith(line, "### ") by {
      if |line| >= 4 { assert line[..4][1] == ' '; }
    }
    assert line[2..] == t;
  }

  /** `# t` renders as a level-one heading that is not wrapped in a paragraph. */
  lemma RenderHeading(t: string)
    requires Plain(t)
    ensures Render("# " + t) == "<h1>" + t + "</h1>"
  {
    HeadingLine(t);
    HeadingKept(t);
  }

  lemma HeadingKept(t: string)
    requires Plain(t)
    ensures Paragraphs(Inline("<h1>" + t + "</h1>")) == "<h1>" + t + "</h1>"
  {
    var h := "<h1>" + t + "</h1>";
    Cat3("<h1>", t, "</h1>");
    assert h[..2] == "<h";
    KeptBlock(h);
  }

  lemma Cat3(x: string, y: string, z: string)
    ensures Inert(x) && Inert(y) && Inert(z) ==> Inert(x + y + z)
    ensures NoTerminator(x) && NoTerminator(y) && NoTerminator(z) ==> NoTerminator(x + y + z)
  {
    Cat(x, y);
    Cat(x + y, z);
  }

  /** An inert one-line heading element passes the inline and paragraph stages unchanged. */
  lemma KeptBlock(h: string)
    requires Inert(h) && NoTerminator(h) && |h| >= 2 && h[..2] == "<h" && !IsSpace(h[|h| - 1])
    ensures Paragraphs(Inline(h)) == h
  {
    OneBlock(h);
  }

  /** A line that does not start with `#` is left alone by the header passes. */
  lemma NoHeading(s: string)
    requires NoTerminator(s) && s != [] && s[0] != '#'
    ensures Headers(s) == s
  {
    assert !StartsWith(s, "# ") by { if |s| >= 2 { assert s[..2][0] == s[0]; } }
    assert !StartsWith(s, "## ") by { if |s| >= 3 { assert s[..3][0] == s[0]; } }
    assert !StartsWith(s, "### ") by { if |s| >= 4 { assert s[..4][0] == s[0]; } }
  }

  /** `***` does not occur in `**x**` when `x` has no star. */
  lemma NoTripleStar(x: string)
    requires Plain(x)
    ensures Free("**" + x + "**", "***")
  {
    var s := "**" + x + "**";
    forall k | 0 <= k < |s|
      ensures !OccursAt(s, k, "***")
    {
      if k + 3 <= |s| {
        if k <= 1 {
          assert s[k..k + 3][2 - k] == s[2] == x[0];
        } else {
          assert s[k..k + 3][0] == s[k] == x[k - 2];
        }
      }
    }
  }

  /** What the bold passes make of `x`. */
  function Strong(x: string): string {
    "<strong>" + x + "</strong>"
  }

  /** The inline passes turn `**x**` into a `<strong>` element. */
  lemma InlineBold(x: string)
    requires Plain(x)
    ensures Inline("**" + x + "**") == Strong(x)
  {
    BoldItalicSkips(x);
    BoldStarsReplaced(x);
    StrongInert(x);
    InlineAfterStars("**" + x + "**", Strong(x));
  }

  lemma BoldItalicSkips(x: string)
    requires Plain(x)
    ensures ReplaceAll(BoldItalic, "**" + x + "**") == "**" + x + "**"
  {
    NoTripleStar(x);
    UntouchedEmphasis(BoldItalic, "**" + x + "**");
  }

  lemma BoldStarsReplaced(x: string)
    requires Plain(x)
    ensures ReplaceAll(BoldStars, "**" + x + "**") == Strong(x)
  {
    EmphasisReplaced(BoldStars, x, "");
    assert "**" + x + "**" == BoldStars.delim + x + BoldStars.delim + "";
  }

  /** Text that the first pass leaves alone and the second turns inert is not changed further. */
  lemma InlineAfterStars(s: string, b: string)
    requires ReplaceAll(BoldItalic, s) == s && ReplaceAll(BoldStars, s) == b && Inert(b)
    ensures Inline(s) == b
  {
    InertUntouched(b);
  }

  /** The passes after the double-star one leave inert text alone. */
  lemma InertUntouched(b: string)
    requires Inert(b)
    ensures ReplaceAll(Code, ReplaceAll(Image, ReplaceAll(Link, ReplaceAll(ItalicUnderscore,
      ReplaceAll(ItalicStar, ReplaceAll(BoldUnderscores, b)))))) == b
  {
    Untouched(BoldUnderscores, b);
    Untouched(ItalicStar, b);
    Untouched(ItalicUnderscore, b);
    Untouched(Link, b);
    Untouched(Image, b);
    Untouched(Code, b);
  }

  /** A `<strong>` element around plain text is inert, on one line, and not a block tag. */
  lemma StrongInert(x: string)
    requires Plain(x)
    ensures var b := Strong(x);
      Inert(b) && NoTerminator(b) && b != [] && !IsSpace(b[0]) && !IsSpace(b[|b| - 1]) && !IsBlockTag(b)
  {
    var b := Strong(x);
    Cat3("<strong>", x, "</strong>");
    assert b[0] == '<' && b[1] == 's' && |b| >= 4;
    assert b[..2][1] == 's' && b[..3][1] == 's' && b[..4][1] == 's';
  }

  /** `**x**` renders as a paragraph holding a `<strong>` element. */
  lemma RenderBold(x: string)
    requires Plain(x)
    ensures Render("**" + x + "**") == "<p>" + Strong(x) + "</p>"
  {
    BoldLine(x);
    InlineBold(x);
    StrongInert(x);
    OneParagraph(Strong(x));
  }

  lemma BoldLine(x: string)
    requires Plain(x)
    ensures Headers("**" + x + "**") == "**" + x + "**"
  {
    var s := "**" + x + "**";
    assert s[0] == '*';
    Cat3("**", x, "**");
    NoHeading(s);
  }

  /** The inline passes turn `[t](u)` into an anchor. */
  lemma InlineLink(t: string, u: string)
    requires Plain(t) && Plain(u)
    ensures Inline("[" + t + "](" + u + ")") == Anchor(u, t)
  {
    var s := "[" + t + "](" + u + ")";
    NoEmphasisInLink(t, u);
    LinkPassReplaced(t, u);
    AnchorInert(u, t);
    InlineLinkSteps(s, Anchor(u, t));
  }

  lemma NoEmphasisInLink(t: string, u: string)
    requires Plain(t) && Plain(u)
    ensures '*' !in "[" + t + "](" + u + ")" && '_' !in "[" + t + "](" + u + ")"
  {
    var s := "[" + t + "](" + u + ")";
    forall k | 0 <= k < |s|
      ensures s[k] != '*' && s[k] != '_'
    {
      if 1 <= k < 1 + |t| {
        assert s[k] == t[k - 1];
      } else if 3 + |t| <= k < 3 + |t| + |u| {
        assert s[k] == u[k - 3 - |t|];
      }
    }
  }

  lemma LinkPassReplaced(t: string, u: string)
    requires t != [] && ']' !in t && u != [] && ')' !in u
    ensures ReplaceAll(Link, "[" + t + "](" + u + ")") == Anchor(u, t)
  {
    LinkReplaced(t, u, "");
    assert "[" + t + "](" + u + ")" + "" == "[" + t + "](" + u + ")";
    assert Anchor(u, t) + "" == Anchor(u, t);
  }

  /** Text without stars or underscores whose link pass yields `a` is inlined to `a`, provided `a` holds no `!` or backquote. */
  lemma InlineLinkSteps(s: string, a: string)
    requires '*' !in s && '_' !in s && ReplaceAll(Link, s) == a && '!' !in a && '`' !in a
    ensures Inline(s) == a
  {
    Untouched(BoldItalic, s);
    Untouched(BoldStars, s);
    Untouched(BoldUnderscores, s);
    Untouched(ItalicStar, s);
    Untouched(ItalicUnderscore, s);
    Untouched(Image, a);
    Untouched(Code, a);
  }

  /** `[t](u)` renders as a paragraph holding an anchor. */
  lemma RenderLink(t: string, u: string)
    requires Plain(t) && Plain(u)
    ensures Render("[" + t + "](" + u + ")") == "<p>" + Anchor(u, t) + "</p>"
  {
    var s := "[" + t + "](" + u + ")";
    LinkLine(t, u);
    NoHeading(s);
    InlineLink(t, u);
    var a := Anchor(u, t);
    AnchorInert(u, t);
    OneParagraph(a);
  }

  lemma LinkLine(t: string, u: string)
    requires Plain(t) && Plain(u)
    ensures NoTerminator("[" + t + "](" + u + ")") && ("[" + t + "](" + u + ")")[0] == '['
  {
    Cat("[", t);
    Cat("[" + t, "](");
    Cat("[" + t + "](", u);
    Cat("[" + t + "](" + u, ")");
  }

  /** The anchor made of plain text and URL stays on one line and opens with `<a `. */
  lemma AnchorInert(u: string, t: string)
    requires NoTerminator(u) && NoTerminator(t) && Inert(u) && Inert(t)
    ensures var a := Anchor(u, t);
      NoTerminator(a) && '!' !in a && '`' !in a && a != [] && !IsSpace(a[0]) && !IsSpace(a[|a| - 1])
      && !IsBlockTag(a)
  {
    var a := Anchor(u, t);
    assert a[0] == '<' && a[1] == 'a' && |a| >= 4;
    assert a[..2][1] == 'a' && a[..3][1] == 'a' && a[..4][1] == 'a';
    assert a == "<a href=\"" + u + "\">" + t + "</a>";
    Cat("<a href=\"", u);
    Cat("<a href=\"" + u, "\">");
    Cat("<a href=\"" + u + "\">", t);
    Cat("<a href=\"" + u + "\">" + t, "</a>");
  }

  /** What the italic passes make of `x`. */
  function Em(x: string): string {
    "<em>" + x + "</em>"
  }

  /**
   * The underscore passes run before the link pass, so a URL holding two
   * underscores comes out with an `<em>` element inside its `href`.
   */
  lemma UnderscoresInUrl(t: string, a: string, b: string, c: string)
    requires Plain(t) && Plain(a) && Plain(b) && Plain(c)
    ensures Inline("[" + t + "](" + a + "_" + b + "_" + c + ")") == Anchor(a + Em(b) + c, t)
  {
    EmphasisSkipsUrl(t, a, b, c);
    ItalicThenLink(t, a, b, c);
    InlineUnderscoreSteps("[" + t + "](" + a + "_" + b + "_" + c + ")",
      "[" + t + "](" + a + Em(b) + c + ")", Anchor(a + Em(b) + c, t));
  }

  /** The star passes and the double-underscore pass find nothing in the link. */
  lemma EmphasisSkipsUrl(t: string, a: string, b: string, c: string)
    requires Plain(t) && Plain(a) && Plain(b) && Plain(c)
    ensures var s := "[" + t + "](" + a + "_" + b + "_" + c + ")";
      '*' !in s && ReplaceAll(BoldUnderscores, s) == s
  {
    NoStarsInUrl(t, a, b, c);
    NoDoubleUnderscore(t, a, b, c);
    UntouchedEmphasis(BoldUnderscores, "[" + t + "](" + a + "_" + b + "_" + c + ")");
  }

  /** The single-underscore pass puts `<em>` into the URL, and the link pass then wraps the lot. */
  lemma ItalicThenLink(t: string, a: string, b: string, c: string)
    requires Plain(t) && Plain(a) && Plain(b) && Plain(c)
    ensures var s := "[" + t + "](" + a + "_" + b + "_" + c + ")";
      var e := "[" + t + "](" + a + Em(b) + c + ")";
      var r := Anchor(a + Em(b) + c, t);
      ReplaceAll(ItalicUnderscore, s) == e && ReplaceAll(Link, e) == r && '!' !in r && '`' !in r
  {
    var url := a + Em(b) + c;
    assert "[" + t + "](" + url + ")" == "[" + t + "](" + a + Em(b) + c + ")";
    ItalicInUrl(t, a, b, c);
    UrlPlain(a, b, c);
    LinkPassReplaced(t, url);
    AnchorInert(url, t);
  }

  /** The passes of `Inline` on text without stars, where only the single-underscore and link passes act. */
  lemma InlineUnderscoreSteps(s: string, e: string, r: string)
    requires '*' !in s && ReplaceAll(BoldUnderscores, s) == s
    requires ReplaceAll(ItalicUnderscore, s) == e && ReplaceAll(Link, e) == r
    requires '!' !in r && '`' !in r
    ensures Inline(s) == r
  {
    Untouched(BoldItalic, s);
    Untouched(BoldStars, s);
    Untouched(ItalicStar, s);
    Untouched(Image, r);
    Untouched(Code, r);
  }

  lemma NoStarsInUrl(t: string, a: string, b: string, c: string)
    requires Plain(t) && Plain(a) && Plain(b) && Plain(c)
    ensures '*' !in "[" + t + "](" + a + "_" + b + "_" + c + ")"
  {
  }

  lemma NoDoubleUnderscore(t: string, a: string, b: string, c: string)
    requires Plain(t) && Plain(a) && Plain(b) && Plain(c)
    ensures Free("[" + t + "](" + a + "_" + b + "_" + c + ")", "__")
  {
    var pre, post := "[" + t + "](" + a, c + ")";
    UrlUnderscores(t, a, b, c);
    assert '_' !in pre && '_' !in b && '_' !in post;
    TwoUnderscores(pre, b, post);
  }

  /** Two underscores with something between them never stand side by side. */
  lemma TwoUnderscores(x: string, y: string, z: string)
    requires '_' !in x && '_' !in y && '_' !in z && y != []
    ensures Free(x + ("_" + y + "_" + z), "__")
  {
    var s := x + ("_" + y + "_" + z);
    forall k | 0 <= k < |s|
      ensures !OccursAt(s, k, "__")
    {
      if k + 2 <= |s| {
        UnderscoreAt(x, y, z, k);
        UnderscoreAt(x, y, z, k + 1);
        assert s[k..k + 2][0] == s[k] && s[k..k + 2][1] == s[k + 1];
      }
    }
  }

  /** In `x_y_z` with no underscore in `x`, `y` or `z`, exactly the two separators are underscores. */
  lemma UnderscoreAt(x: string, y: string, z: string, k: int)
    requires '_' !in x && '_' !in y && '_' !in z
    requires 0 <= k < |x + ("_" + y + "_" + z)|
    ensures (x + ("_" + y + "_" + z))[k] == '_' <==> k == |x| || k == |x| + 1 + |y|
  {
    var s := x + ("_" + y + "_" + z);
    if k < |x| {
      assert s[k] == x[k];
      assert x[k] in x;
    } else if |x| < k < |x| + 1 + |y| {
      assert s[k] == y[k - |x| - 1];
      assert y[k - |x| - 1] in y;
    } else if k > |x| + 1 + |y| {
      assert s[k] == z[k - |x| - |y| - 2];
      assert z[k - |x| - |y| - 2] in z;
    }
  }

  lemma ItalicInUrl(t: string, a: string, b: string, c: string)
    requires Plain(t) && Plain(a) && Plain(b) && Plain(c)
    ensures ReplaceAll(ItalicUnderscore, "[" + t + "](" + a + "_" + b + "_" + c + ")")
         == "[" + t + "](" + a + Em(b) + c + ")"
  {
    var pre, post := "[" + t + "](" + a, c + ")";
    var p := ItalicUnderscore;
    assert '_' !in pre && '_' !in post;
    calc {
      ReplaceAll(p, "[" + t + "](" + a + "_" + b + "_" + c + ")");
      { UrlUnderscores(t, a, b, c); }
      ReplaceAll(p, pre + ("_" + b + "_" + post));
      { CopiesPrefix(p, pre, "_" + b + "_" + post); }
      pre + ReplaceAll(p, "_" + b + "_" + post);
      { EmphasisReplaced(p, b, post); }
      pre + ("<em>" + b + "</em>" + ReplaceAll(p, post));
      { Untouched(p, post); }
      pre + (Em(b) + post);
      { UrlAround(t, a, Em(b), c); }
      "[" + t + "](" + a + Em(b) + c + ")";
    }
  }

  /** A link whose URL is `a_b_c`, split around `_b_`. */
  lemma UrlUnderscores(t: string, a: string, b: string, c: string)
    ensures "[" + t + "](" + a + "_" + b + "_" + c + ")" == ("[" + t + "](" + a) + ("_" + b + "_" + (c + ")"))
  {
  }

  /** A link whose URL is `a`, then `m`, then `c`, split around `m`. */
  lemma UrlAround(t: string, a: string, m: string, c: string)
    ensures "[" + t + "](" + a + m + c + ")" == ("[" + t + "](" + a) + (m + (c + ")"))
  {
  }

  lemma UrlPlain(a: string, b: string, c: string)
    requires Plain(a) && Plain(b) && Plain(c)
    ensures a + Em(b) + c != [] && ')' !in a + Em(b) + c
    ensures NoTerminator(a + Em(b) + c) && Inert(a + Em(b) + c)
  {
    Cat3("<em>", b, "</em>");
    Cat3(a, Em(b), c);
  }
}
