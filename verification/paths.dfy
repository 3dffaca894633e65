/**
 * URL-path and title derivations shared by the build-time feed, the feed
 * route and the sitemap: joining a relative path, dropping the `.md`
 * extension, forcing a leading slash, the humanised fallback title and the
 * slug made from a title.
 */
module Paths {
  import opened Strings

  /** `basePath ? `${basePath}/${name}` : name` (utils/generateRSSFeed.ts:64). */
  function JoinRelative(base: string, name: string): string {
    if base == "" then name else base + "/" + name
  }

  /**
   * Joining keeps the entry's name as the last segment of the relative path,
   * which is what the fallback title is later made from.
   */
  lemma JoinRelativeLast(base: string, name: string)
    requires '/' !in name
    ensures LastSegment(JoinRelative(base, name)) == name
    ensures base == "" ==> JoinRelative(base, name) == name
  {
    if base == "" {
      LastSegmentOfName(name);
    } else {
      var x := base + "/";
      assert JoinRelative(base, name) == x + name;
      LastSegmentOfSuffix(x, name);
    }
  }

  /** `p.replace(/\.md$/, '')`: drops one `.md` at the very end, if there is one. */
  function StripMd(p: string): (r: string)
    ensures EndsWith(p, ".md") ==> r + ".md" == p
    ensures !EndsWith(p, ".md") ==> r == p
  {
    if EndsWith(p, ".md") then p[..|p| - 3] else p
  }

  /** Stripping undoes appending the extension, and strips it only once. */
  lemma StripMdInverse(p: string)
    ensures StripMd(p + ".md") == p
  {
    var s := p + ".md";
    assert EndsWith(s, ".md") by {
      assert s[|s| - 3..] == ".md";
    }
    assert s[..|s| - 3] == p;
  }

  /** `p.startsWith('/') ? p : `/${p}``. */
  function LeadingSlash(p: string): (r: string)
    ensures StartsWith(r, "/")
    ensures StartsWith(p, "/") ==> r == p
    ensures !StartsWith(p, "/") ==> r == "/" + p
  {
    if StartsWith(p, "/") then p else "/" + p
  }

  /** A path that already has its slash is not given a second one. */
  lemma LeadingSlashIdempotent(p: string)
    ensures LeadingSlash(LeadingSlash(p)) == LeadingSlash(p)
  {
  }

  /**
   * `p.split('/').pop()?.replace(/-/g, ' ') || 'Untitled'`: the last path
   * segment with its hyphens read as spaces, or 'Untitled' when that segment
   * is empty (an empty path, or one that ends in '/').
   */
  function FallbackTitle(p: string): (r: string)
    ensures r != "" && '/' !in r
    ensures LastSegment(p) == "" ==> r == "Untitled"
  {
    var seg := LastSegment(p);
    var human := ReplaceChar(seg, '-', ' ');
    if human == "" then "Untitled" else human
  }

  /** A non-empty last segment is the title, letter for letter, with each '-' read as a space. */
  lemma FallbackTitleOfSegment(p: string)
    requires LastSegment(p) != ""
    ensures FallbackTitle(p) == ReplaceChar(LastSegment(p), '-', ' ')
    ensures |FallbackTitle(p)| == |LastSegment(p)| && '-' !in FallbackTitle(p)
    ensures forall k :: 0 <= k < |LastSegment(p)| ==>
      FallbackTitle(p)[k] == (if LastSegment(p)[k] == '-' then ' ' else LastSegment(p)[k])
  {
  }

  /**
   * `/${title?.replace(/\s+/g, '-').toLowerCase() || 'untitled'}`: a URL path
   * made from a title, with each run of whitespace turned into one hyphen and
   * the letters lowered; '/untitled' when there is no title or it is empty.
   */
  function TitleSlug(title: Option<string>): (r: string)
    ensures |r| >= 2 && r[0] == '/'
    ensures !Truthy(title) ==> r == "/untitled"
    ensures Truthy(title) ==> |r| <= |title.value| + 1
    ensures Truthy(title) ==> r == "/" + Lower(DashSpaces(title.value))
  {
    var slug := if title.Some? then Lower(DashSpaces(title.value)) else "";
    "/" + (if slug == "" then "untitled" else slug)
  }

  /**
   * A slug holds no whitespace and no upper-case letter, and a title without
   * whitespace is only lowered.
   */
  lemma TitleSlugClean(title: Option<string>)
    ensures NoSpace(TitleSlug(title))
    ensures forall k :: 0 <= k < |TitleSlug(title)| ==> !IsUpper(TitleSlug(title)[k])
    ensures Truthy(title) && NoSpace(title.value) ==> TitleSlug(title) == "/" + Lower(title.value)
  {
  }

  /** Two words separated by a run of whitespace: the run becomes one hyphen and the letters are lowered. */
  lemma TitleSlugWords(a: string, w: string, b: string)
    requires a != [] && NoSpace(a) && NoSpace(b)
    requires w != [] && AllSpace(w)
    ensures TitleSlug(Some(a + w + b)) == "/" + Lower(a + "-" + b)
  {
    var t := a + w + b;
    assert DashSpaces(t) == a + "-" + b by {
      assert t == a + (w + b);
      DashSpacesWord(a, w + b);
      assert b == [] || !IsSpace(b[0]);
      DashSpacesRun(w, b);
      Assoc(a, "-", b);
    }
    assert Truthy(Some(t));
    assert TitleSlug(Some(t)) == "/" + Lower(DashSpaces(t));
  }
}
