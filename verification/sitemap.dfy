/**
 * The sitemap's URL source (server/api/__sitemap__/urls.ts): every record of
 * the `content` collection, drafts included and in collection order, as a
 * location and a last-modified date.
 */
module Sitemap {
  import opened Strings
  import opened Paths
  import opened Collection
  import FeedRoute

  /** One sitemap entry. */
  datatype Url = Url(loc: string, lastmod: int)

  /**
   * `post.path || post._path || '/' + slug`: the record's own path, used as it
   * is, else its legacy path, else the slug of its title.
   */
  function Loc(r: Record): (loc: string)
    ensures loc != ""
    ensures Truthy(r.path) ==> loc == r.path.value
    ensures !Truthy(r.path) && Truthy(r.legacyPath) ==> loc == r.legacyPath.value
    ensures !Truthy(r.path) && !Truthy(r.legacyPath) ==> loc == TitleSlug(r.title)
  {
    Or(r.path, Or(r.legacyPath, TitleSlug(r.title)))
  }

  /** The entry for one record, `now` standing for the clock when it has no date. */
  function UrlOf(r: Record, now: int): (u: Url)
    ensures u.loc == Loc(r)
    ensures r.date.Some? ==> u.lastmod == r.date.value
    ensures r.date.None? ==> u.lastmod == now
  {
    Url(Loc(r), if r.date.Some? then r.date.value else now)
  }

  /** `posts.map(...)`: one entry per record, in the same order. */
  function UrlsOf(records: seq<Record>, now: int): (r: seq<Url>)
    ensures |r| == |records|
    ensures forall i :: 0 <= i < |r| ==> r[i] == UrlOf(records[i], now)
  {
    if records == [] then [] else [UrlOf(records[0], now)] + UrlsOf(records[1..], now)
  }

  /** The handler: the entries of the `content` collection, or none when the query fails. */
  function Urls(store: Store, now: int): (r: seq<Url>)
    ensures "content" !in store ==> r == []
    ensures "content" in store ==> |r| == |store["content"]|
  {
    if "content" in store then UrlsOf(store["content"], now) else []
  }

  /** A location made from the title holds no whitespace and no capital, and is '/untitled' without a title. */
  lemma LocFromTitle(r: Record)
    requires !Truthy(r.path) && !Truthy(r.legacyPath)
    ensures StartsWith(Loc(r), "/") && NoSpace(Loc(r))
    ensures forall k :: 0 <= k < |Loc(r)| ==> !IsUpper(Loc(r)[k])
    ensures !Truthy(r.title) ==> Loc(r) == "/untitled"
  {
    TitleSlugClean(r.title);
  }

  /**
   * The sitemap and the feed route name a record by the same URL path when
   * its own path is present and already starts with '/', or when it has no
   * path, legacy path or id at all.
   */
  lemma LocMatchesFeed(r: Record)
    requires (Truthy(r.path) && StartsWith(r.path.value, "/")) ||
      (!Truthy(r.path) && !Truthy(r.legacyPath) && !Truthy(r.legacyId))
    ensures Loc(r) == FeedRoute.UrlPath(r)
  {
  }

  /**
   * They part ways on a path without its leading '/': the sitemap lists it as
   * it is, while the feed route puts the slash in front.
   */
  lemma LocWithoutSlash(r: Record)
    requires r.path == Some("blog/hello")
    ensures Loc(r) == "blog/hello" && FeedRoute.UrlPath(r) == "/blog/hello"
  {
    var p := "blog/hello";
    assert p[..1] == "b";
    assert !StartsWith(p, "/");
  }
}
