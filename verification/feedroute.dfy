/**
 * The server feed route (server/routes/feed.xml.ts): the published records
 * of the `content` collection, newest first, at most twenty, each mapped to a
 * feed item. Body text comes from a plain string body or from a flattening
 * of the parsed markdown tree; the record's path, title and URL path each
 * have their own fallback chain.
 */
module FeedRoute {
  import opened Strings
  import opened Paths
  import opened Query
  import BuildFeed
  import opened Collection

  /** `extractText(nodes)`: each node's text, joined with single spaces, then trimmed. */
  function ExtractText(nodes: seq<Node>): (r: string)
    ensures r == [] || (!IsSpace(r[0]) && !IsSpace(r[|r| - 1]))
    ensures nodes == [] ==> r == ""
  {
    JoinTexts(seq(|nodes|, i requires 0 <= i < |nodes| => TextOf(nodes[i])))
  }

  /** `.join(' ').trim()` */
  function JoinTexts(texts: seq<string>): (r: string)
    ensures r == [] || (!IsSpace(r[0]) && !IsSpace(r[|r| - 1]))
    ensures texts == [] ==> r == ""
  {
    Trim(Join(texts, " "))
  }

  /**
   * What one node contributes: the value of a text node, or '' when it has
   * none; the extraction of the children of an element or of any other node
   * that has them; otherwise ''.
   */
  function TextOf(n: Node): (r: string)
    ensures n.kind == "text" ==> r == Or(n.value, "")
    ensures n.kind != "text" ==> r == [] || (!IsSpace(r[0]) && !IsSpace(r[|r| - 1]))
    ensures n.kind != "text" && !n.hasChildren ==> r == ""
    decreases n
  {
    if n.kind == "text" then Or(n.value, "")
    else if n.kind == "element" && n.hasChildren then
      JoinTexts(seq(|n.children|, i requires 0 <= i < |n.children| => TextOf(n.children[i])))
    else if n.hasChildren then
      JoinTexts(seq(|n.children|, i requires 0 <= i < |n.children| => TextOf(n.children[i])))
    else ""
  }

  /** A node with children, whatever its type other than text, contributes exactly its children's extraction. */
  lemma TextOfParent(n: Node)
    requires n.kind != "text" && n.hasChildren
    ensures TextOf(n) == ExtractText(n.children)
  {
    var own := seq(|n.children|, i requires 0 <= i < |n.children| => TextOf(n.children[i]));
    var nodes := n.children;
    var theirs := seq(|nodes|, i requires 0 <= i < |nodes| => TextOf(nodes[i]));
    assert own == theirs;
  }

  /** A lone node yields its own contribution, trimmed: a text node's value, or '' when it has none. */
  lemma ExtractSingle(n: Node)
    ensures ExtractText([n]) == Trim(TextOf(n))
    ensures n.kind == "text" ==> ExtractText([n]) == Trim(Or(n.value, ""))
  {
    var texts := seq(1, i requires 0 <= i < 1 => TextOf([n][i]));
    assert texts == [TextOf(n)];
  }

  /** Wrapping nodes in a parent that is not a text node changes nothing: extraction is already trimmed. */
  lemma ExtractWrapped(kind: string, value: Option<string>, nodes: seq<Node>)
    requires kind != "text"
    ensures ExtractText([Node(kind, value, true, nodes)]) == ExtractText(nodes)
  {
    var n := Node(kind, value, true, nodes);
    ExtractSingle(n);
    TextOfParent(n);
    TrimIdempotent(Join(seq(|nodes|, i requires 0 <= i < |nodes| => TextOf(nodes[i])), " "));
  }

  /** Nodes that contribute nothing leave no stray separators behind. */
  lemma ExtractBlank(nodes: seq<Node>)
    requires forall i :: 0 <= i < |nodes| ==> TextOf(nodes[i]) == ""
    ensures ExtractText(nodes) == ""
  {
    var texts := seq(|nodes|, i requires 0 <= i < |nodes| => TextOf(nodes[i]));
    JoinBlank(texts, " ");
    TrimAllSpace(Join(texts, " "));
  }

  /** An emphasised word with spaces around it contributes the bare word. */
  lemma EmphasisExample(w: string)
    requires w == " world "
    ensures TextOf(Node("element", None, true, [Node("text", Some(w), false, [])])) == "world"
  {
    var t := Node("text", Some(w), false, []);
    var em := Node("element", None, true, [t]);
    TextOfParent(em);
    ExtractSingle(t);
    assert Or(t.value, "") == w;
    TrimWorld(w);
  }

  lemma TrimWorld(w: string)
    requires w == " world "
    ensures Trim(w) == "world"
  {
    assert TrimStart(w) == "world " by {
      assert w[1..] == "world ";
    }
    assert TrimEnd("world ") == "world" by {
      assert "world "[..5] == "world";
    }
  }

  /** A text node and an emphasised word flatten to the words with one space between. */
  lemma ExtractExample(em: Node)
    requires em == Node("element", None, true, [Node("text", Some(" world "), false, [])])
    ensures ExtractText([Node("text", Some("Hello"), false, []), em]) == "Hello world"
  {
    EmphasisExample(" world ");
    var nodes := [Node("text", Some("Hello"), false, []), em];
    var texts := seq(|nodes|, i requires 0 <= i < |nodes| => TextOf(nodes[i]));
    assert texts == ["Hello", "world"];
    JoinTwo("Hello", "world", " ");
    TrimFixpoint("Hello world");
  }

  lemma JoinTwo(a: string, b: string, sep: string)
    ensures Join([a, b], sep) == a + sep + b
  {
    assert [a, b][1..] == [b];
  }

  /** The text content a body yields: the string itself, the flattened tree, or ''. */
  function BodyContent(b: Body): (r: string)
    ensures b.NoBody? ==> r == ""
    ensures b.StringBody? ==> r == b.text
    ensures b.TreeBody? ==> r == [] || (!IsSpace(r[0]) && !IsSpace(r[|r| - 1]))
    ensures b.TreeBody? && !b.hasChildren ==> r == ""
  {
    match b
    case NoBody => ""
    case StringBody(text) => text
    case TreeBody(hasChildren, children) => if hasChildren then ExtractText(children) else ""
  }

  /** `post.path || post._path || post._id || ''`: the first truthy candidate. */
  function RoutePath(r: Record): (p: string)
    ensures Truthy(r.path) ==> p == r.path.value
    ensures !Truthy(r.path) && Truthy(r.legacyPath) ==> p == r.legacyPath.value
    ensures !Truthy(r.path) && !Truthy(r.legacyPath) && Truthy(r.legacyId) ==> p == r.legacyId.value
    ensures p == "" <==> !Truthy(r.path) && !Truthy(r.legacyPath) && !Truthy(r.legacyId)
  {
    Or(r.path, Or(r.legacyPath, Or(r.legacyId, "")))
  }

  /** The item title: the record's own if truthy, else the humanised last segment of its path, else 'Untitled'. */
  function RouteTitle(r: Record): (t: string)
    ensures t != ""
    ensures Truthy(r.title) ==> t == r.title.value
    ensures !Truthy(r.title) ==> t == FallbackTitle(RoutePath(r))
  {
    Or(r.title, FallbackTitle(RoutePath(r)))
  }

  /**
   * The item's URL path: a non-empty path with a '/' put in front only if it
   * lacks one, or, with no path, the slug of the record's own title.
   */
  function UrlPath(r: Record): (u: string)
    ensures StartsWith(u, "/")
    ensures RoutePath(r) != "" && StartsWith(RoutePath(r), "/") ==> u == RoutePath(r)
    ensures RoutePath(r) != "" && !StartsWith(RoutePath(r), "/") ==> u == "/" + RoutePath(r)
    ensures RoutePath(r) == "" ==> u == TitleSlug(r.title)
  {
    var path := RoutePath(r);
    if path != "" then LeadingSlash(path) else TitleSlug(r.title)
  }

  /** The item `addItem` receives for one record, `now` standing for the clock. */
  function ItemOf(r: Record, now: int): (item: BuildFeed.Item)
    ensures item.id == item.link == BuildFeed.BaseUrl + UrlPath(r)
    ensures item.title == RouteTitle(r)
    ensures item.description == Or(r.description, "")
    ensures item.content == "" <==> BodyContent(r.body) == "" && !Truthy(r.description)
    ensures BodyContent(r.body) != "" ==> item.content == BodyContent(r.body)
    ensures BodyContent(r.body) == "" ==> item.content == item.description
    ensures item.date == (if r.date.Some? then r.date.value else now)
  {
    BuildFeed.Item(
      title := RouteTitle(r),
      id := BuildFeed.BaseUrl + UrlPath(r),
      link := BuildFeed.BaseUrl + UrlPath(r),
      description := Or(r.description, ""),
      content := Or(Some(BodyContent(r.body)), Or(r.description, "")),
      date := if r.date.Some? then r.date.value else now)
  }

  /** `where('draft', '=', false).order('date', 'DESC').limit(20)`. */
  function Selected(records: seq<Record>): (r: seq<Record>)
    ensures |r| <= BuildFeed.MaxItems
    ensures forall x :: x in r ==> x in records && IsPublished(x)
  {
    NewestAtMost(records, IsPublished, StampOf, 0, BuildFeed.MaxItems);
    Newest(records, IsPublished, StampOf, 0, BuildFeed.MaxItems)
  }

  /** The items for `records`, one each, in order. */
  function Items(records: seq<Record>, now: int): (r: seq<BuildFeed.Item>)
    ensures |r| == |records|
  {
    if records == [] then [] else [ItemOf(records[0], now)] + Items(records[1..], now)
  }

  lemma {:induction false} ItemsAt(records: seq<Record>, now: int, k: nat)
    requires k < |records|
    ensures Items(records, now)[k] == ItemOf(records[k], now)
  {
    if k > 0 {
      ItemsAt(records[1..], now, k - 1);
    }
  }

  lemma {:induction false} ItemsSnoc(records: seq<Record>, now: int, r: Record)
    ensures Items(records + [r], now) == Items(records, now) + [ItemOf(r, now)]
  {
    if records == [] {
      assert [r][1..] == [];
    } else {
      assert (records + [r])[1..] == records[1..] + [r];
      ItemsSnoc(records[1..], now, r);
    }
  }

  /** One more record of the prefix adds its item at the end. */
  lemma ItemsPrefix(records: seq<Record>, now: int, i: nat)
    requires i < |records|
    ensures Items(records[..i + 1], now) == Items(records[..i], now) + [ItemOf(records[i], now)]
  {
    BuildFeed.PrefixSnoc(records, i);
    ItemsSnoc(records[..i], now, records[i]);
  }

  /**
   * The items the route serves for a content store mapping collection names
   * to records: none when the `content` collection cannot be queried, the
   * query's failure being caught and an empty feed served.
   */
  function RouteItems(store: Store, now: int): (r: seq<BuildFeed.Item>)
    ensures "content" !in store ==> r == []
    ensures |r| <= BuildFeed.MaxItems
  {
    if "content" in store then
      NewestSize(store["content"], IsPublished, StampOf, 0, BuildFeed.MaxItems);
      Items(Selected(store["content"]), now)
    else []
  }

  /** The body of the `forEach` callback: derives the fields and adds the item. */
  method AddRecord(feed: BuildFeed.Feed, post: Record, now: int)
    modifies feed
    ensures feed.items == old(feed.items) + [ItemOf(post, now)]
  {
    var path := RoutePath(post);
    var title := Or(post.title, FallbackTitle(path));
    var content := "";
    if post.body.StringBody? && post.body.text != "" {
      content := post.body.text;
    } else if post.body.TreeBody? && post.body.hasChildren {
      content := ExtractText(post.body.children);
    }
    var urlPath := if path != "" then LeadingSlash(path) else TitleSlug(post.title);
    var date := if post.date.Some? then post.date.value else now;
    feed.AddItem(BuildFeed.Item(
      title := title,
      id := BuildFeed.BaseUrl + urlPath,
      link := BuildFeed.BaseUrl + urlPath,
      description := Or(post.description, ""),
      content := Or(Some(content), Or(post.description, "")),
      date := date));
  }

  /** `posts.forEach(...)`: adds one item per record, in order. */
  method AddRecords(feed: BuildFeed.Feed, posts: seq<Record>, now: int)
    modifies feed
    ensures feed.items == old(feed.items) + Items(posts, now)
  {
    var i := 0;
    while i < |posts|
      invariant 0 <= i <= |posts|
      invariant feed.items == old(feed.items) + Items(posts[..i], now)
    {
      AddRecord(feed, posts[i], now);
      ItemsGrow(old(feed.items), posts, now, i);
      i := i + 1;
    }
    assert posts[..|posts|] == posts;
  }

  /** One more record of the `forEach` extends the items added so far by its own item. */
  lemma ItemsGrow(before: seq<BuildFeed.Item>, records: seq<Record>, now: int, i: nat)
    requires i < |records|
    ensures before + Items(records[..i], now) + [ItemOf(records[i], now)] == before + Items(records[..i + 1], now)
  {
    ItemsPrefix(records, now, i);
  }

  /** The route handler: queries the collection, adds its items, and serves the feed even when the query fails. */
  method FeedXml(store: Store, now: int) returns (items: seq<BuildFeed.Item>)
    ensures items == RouteItems(store, now)
  {
    var feed := new BuildFeed.Feed();
    if "content" in store {
      var posts := Selected(store["content"]);
      AddRecords(feed, posts, now);
      assert feed.items == [] + Items(posts, now);
      assert [] + Items(posts, now) == Items(posts, now);
    }
    items := feed.items;
  }

  /** The route serves as many items as there are published records, up to twenty. */
  lemma RouteSize(store: Store, now: int)
    requires "content" in store
    ensures var published := |Filter(store["content"], IsPublished)|;
      |RouteItems(store, now)| == if published < BuildFeed.MaxItems then published else BuildFeed.MaxItems
  {
    NewestSize(store["content"], IsPublished, StampOf, 0, BuildFeed.MaxItems);
  }

  /** Each item comes from a record of the collection that is not a draft, in the order of the query. */
  lemma RouteItemsPublished(store: Store, now: int, k: nat)
    requires "content" in store && k < |RouteItems(store, now)|
    ensures var r := Selected(store["content"])[k];
      r in store["content"] && !r.draft && RouteItems(store, now)[k] == ItemOf(r, now)
  {
    ItemsAt(Selected(store["content"]), now, k);
  }

  /**
   * Items are newest first: dated records come before undated ones, and the
   * dates of dated records never increase along the feed.
   */
  lemma RouteNewestFirst(store: Store, now: int)
    requires "content" in store
    ensures var sel := Selected(store["content"]);
      var items := RouteItems(store, now);
      forall i, j :: 0 <= i < j < |items| ==>
        (sel[i].date.None? ==> sel[j].date.None?) &&
        (sel[i].date.Some? && sel[j].date.Some? ==> items[j].date <= items[i].date)
  {
    var sel := Selected(store["content"]);
    var items := RouteItems(store, now);
    NewestOrdered(store["content"], IsPublished, StampOf, 0, BuildFeed.MaxItems);
    forall i, j | 0 <= i < j < |items|
      ensures (sel[i].date.None? ==> sel[j].date.None?) &&
        (sel[i].date.Some? && sel[j].date.Some? ==> items[j].date <= items[i].date)
    {
      ItemsAt(sel, now, i);
      ItemsAt(sel, now, j);
      assert NoLater(StampOf(sel[j]), StampOf(sel[i]));
    }
  }

  /** Every item's id and link are the same address: the site's, then a path that starts with '/'. */
  lemma RouteLinks(store: Store, now: int, k: nat)
    requires "content" in store && k < |RouteItems(store, now)|
    ensures var item := RouteItems(store, now)[k];
      item.id == item.link && StartsWith(item.link, BuildFeed.BaseUrl + "/")
  {
    var sel := Selected(store["content"]);
    ItemsAt(sel, now, k);
    ItemLink(sel[k], now);
  }

  lemma ItemLink(r: Record, now: int)
    ensures var item := ItemOf(r, now);
      item.id == item.link && StartsWith(item.link, BuildFeed.BaseUrl + "/")
  {
    var u := UrlPath(r);
    assert BuildFeed.BaseUrl + u == (BuildFeed.BaseUrl + "/") + u[1..];
  }

  /** With no path at all, the URL path is the lowered, hyphenated title, or '/untitled'. */
  lemma UrlPathFromTitle(r: Record)
    requires RoutePath(r) == ""
    ensures var u := UrlPath(r);
      NoSpace(u) && (forall k :: 0 <= k < |u| ==> !IsUpper(u[k])) &&
      (!Truthy(r.title) ==> u == "/untitled")
  {
    TitleSlugClean(r.title);
  }
}
