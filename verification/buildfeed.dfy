/**
 * The build-time feed: the posts the walk found, drafts left out, newest
 * first, at most twenty of them, each mapped to a feed item and added to the
 * feed in that order.
 */
module BuildFeed {
  import opened Strings
  import opened Paths
  import opened Query
  import opened ContentReader

  /** The site's address, the prefix of every item's id and link. */
  const BaseUrl: string := "https://nuxtjs-blog-starter.vercel.app"

  /** How many items the feed holds at most. */
  const MaxItems: nat := 20

  /** One item as handed to `feed.addItem`. */
  datatype Item = Item(
    title: string,
    id: string,
    link: string,
    description: string,
    content: string,
    date: int)

  /** A post's date as the sort compares it. */
  function DateOf(p: Post): Stamp {
    At(p.Date())
  }

  /** The filter `!post.draft`. */
  predicate IsPublished(p: Post) {
    !p.Draft()
  }

  /** `posts.filter(post => !post.draft)`. */
  function Published(posts: seq<Post>): (r: seq<Post>)
    ensures |r| <= |posts|
    ensures forall p :: p in r <==> p in posts && !p.Draft()
  {
    Filter(posts, IsPublished)
  }

  /** `.filter(...).sort((a, b) => b.date - a.date).slice(0, 20)`. */
  function Selected(posts: seq<Post>): (r: seq<Post>)
    ensures |r| <= MaxItems
    ensures forall p :: p in r ==> p in posts && !p.Draft()
  {
    NewestAtMost(posts, IsPublished, DateOf, 0, MaxItems);
    Newest(posts, IsPublished, DateOf, 0, MaxItems)
  }

  /** The item that `addItem` receives for one post. */
  function ItemOf(p: Post): (r: Item)
    ensures r.id == r.link == BaseUrl + p.Path()
    ensures r.title == p.Title() && r.date == p.Date() && r.description == p.Description()
    ensures p.Content() != "" ==> r.content == p.Content()
    ensures p.Content() == "" ==> r.content == p.Description()
  {
    var urlPath := LeadingSlash(p.Path());
    Item(
      title := p.Title(),
      id := BaseUrl + urlPath,
      link := BaseUrl + urlPath,
      description := p.Description(),
      content := Or(Some(p.Content()), p.Description()),
      date := p.Date())
  }

  /** The items for `posts`, one each, in order. */
  function Items(posts: seq<Post>): (r: seq<Item>)
    ensures |r| == |posts|
  {
    Map(posts, ItemOf)
  }

  lemma ItemsAt(posts: seq<Post>, k: nat)
    requires k < |posts|
    ensures Items(posts)[k] == ItemOf(posts[k])
  {
    MapAt(posts, ItemOf, k);
  }

  /** One more post of the prefix adds its item at the end. */
  lemma ItemsPrefix(posts: seq<Post>, i: nat)
    requires i < |posts|
    ensures Items(posts[..i + 1]) == Items(posts[..i]) + [ItemOf(posts[i])]
  {
    PrefixSnoc(posts, i);
    ItemsSnoc(posts[..i], posts[i]);
  }

  lemma PrefixSnoc<T>(s: seq<T>, i: nat)
    requires i < |s|
    ensures s[..i + 1] == s[..i] + [s[i]]
  {
  }

  lemma ItemsSnoc(posts: seq<Post>, p: Post)
    ensures Items(posts + [p]) == Items(posts) + [ItemOf(p)]
  {
    MapSnoc(posts, p, ItemOf);
  }

  /** The feed object: the items added so far, in order. */
  class Feed {
    var items: seq<Item>

    constructor()
      ensures items == []
    {
      items := [];
    }

    /** `feed.addItem(item)`. */
    method AddItem(item: Item)
      modifies this
      ensures items == old(items) + [item]
    {
      items := items + [item];
    }
  }

  /** The items of the feed file, or `None` when the walk throws and no file is written. */
  function FeedItems(root: Entry, now: int): (r: Option<seq<Item>>)
    ensures r.Some? <==> AllPosts(root, now).Some?
  {
    match AllPosts(root, now)
    case None => None
    case Some(posts) => Some(Items(Selected(posts)))
  }

  /** One more post of the `forEach` extends the items added so far by its own item. */
  lemma ItemsGrow(before: seq<Item>, posts: seq<Post>, i: nat)
    requires i < |posts|
    ensures before + Items(posts[..i]) + [ItemOf(posts[i])] == before + Items(posts[..i + 1])
  {
    ItemsPrefix(posts, i);
    Assoc(before, Items(posts[..i]), [ItemOf(posts[i])]);
  }

  /** `posts.forEach(post => feed.addItem({ ... }))`: adds one item per post, in order. */
  method AddPosts(feed: Feed, posts: seq<Post>)
    modifies feed
    ensures feed.items == old(feed.items) + Items(posts)
  {
    var i := 0;
    while i < |posts|
      invariant 0 <= i <= |posts|
      invariant feed.items == old(feed.items) + Items(posts[..i])
    {
      feed.AddItem(ItemOf(posts[i]));
      ItemsGrow(old(feed.items), posts, i);
      i := i + 1;
    }
    assert posts[..|posts|] == posts;
  }

  /** `generateRSSFeed()`: reads every post, then adds the selected ones to the feed in order. */
  method GenerateRSSFeed(root: Entry, now: int) returns (written: Option<seq<Item>>)
    ensures written == FeedItems(root, now)
  {
    var feed := new Feed();
    var posts := GetAllPosts(root, now);
    if posts.None? {
      return None;
    }
    AddPosts(feed, Selected(posts.value));
    assert feed.items == [] + Items(Selected(posts.value));
    assert [] + Items(Selected(posts.value)) == Items(Selected(posts.value));
    return Some(feed.items);
  }

  /** The feed holds as many items as there are published posts, up to twenty. */
  lemma FeedSize(root: Entry, now: int)
    requires AllPosts(root, now).Some?
    ensures var published := |Published(AllPosts(root, now).value)|;
      |FeedItems(root, now).value| == if published < MaxItems then published else MaxItems
  {
    NewestSize(AllPosts(root, now).value, IsPublished, DateOf, 0, MaxItems);
  }

  /** Each item is made from a post of the walk that is not a draft, in the order of the selection. */
  lemma FeedItemsPublished(root: Entry, now: int, k: nat)
    requires AllPosts(root, now).Some? && k < |FeedItems(root, now).value|
    ensures var p := Selected(AllPosts(root, now).value)[k];
      p in AllPosts(root, now).value && !p.Draft() && FeedItems(root, now).value[k] == ItemOf(p)
  {
    ItemsAt(Selected(AllPosts(root, now).value), k);
  }

  /** Item dates never increase along the feed. */
  lemma FeedNewestFirst(root: Entry, now: int)
    requires AllPosts(root, now).Some?
    ensures forall i, j :: 0 <= i < j < |FeedItems(root, now).value| ==>
      FeedItems(root, now).value[j].date <= FeedItems(root, now).value[i].date
  {
    var sel := Selected(AllPosts(root, now).value);
    assert FeedItems(root, now).value == Items(sel);
    NewestOrdered(AllPosts(root, now).value, IsPublished, DateOf, 0, MaxItems);
    ItemsNewestFirst(sel);
  }

  lemma ItemDate(posts: seq<Post>, k: nat)
    requires k < |posts|
    ensures Items(posts)[k].date == posts[k].Date()
  {
    ItemsAt(posts, k);
  }

  /** The items of posts ordered newest first have dates that never increase. */
  lemma ItemsNewestFirst(posts: seq<Post>)
    requires NewestFirst(posts, DateOf)
    ensures forall i, j :: 0 <= i < j < |Items(posts)| ==> Items(posts)[j].date <= Items(posts)[i].date
  {
    forall i, j | 0 <= i < j < |posts|
      ensures Items(posts)[j].date <= Items(posts)[i].date
    {
      ItemDate(posts, i);
      ItemDate(posts, j);
      assert NoLater(DateOf(posts[j]), DateOf(posts[i]));
    }
  }

  /** A published post that is left out of the feed is no later than every post in it. */
  lemma FeedMostRecent(root: Entry, now: int, p: Post)
    requires AllPosts(root, now).Some?
    requires p in AllPosts(root, now).value && !p.Draft() && p !in Selected(AllPosts(root, now).value)
    ensures forall q :: q in Selected(AllPosts(root, now).value) ==> p.Date() <= q.Date()
  {
    NewestMostRecent(AllPosts(root, now).value, IsPublished, DateOf, MaxItems, p);
  }

  /** Posts of the same date enter the feed in walk order, the first ones first. */
  lemma FeedStable(root: Entry, now: int, d: Stamp)
    requires AllPosts(root, now).Some?
    ensures Dated(Selected(AllPosts(root, now).value), DateOf, d) <= Dated(Published(AllPosts(root, now).value), DateOf, d)
  {
    NewestStable(AllPosts(root, now).value, IsPublished, DateOf, MaxItems, d);
  }

  /** Every item's id and link are the same address: the site's, then the post's path. */
  lemma FeedLinks(root: Entry, now: int, k: nat)
    requires AllPosts(root, now).Some? && k < |FeedItems(root, now).value|
    ensures var item := FeedItems(root, now).value[k];
      item.id == item.link && StartsWith(item.link, BaseUrl + "/")
  {
    var sel := Selected(AllPosts(root, now).value);
    ItemsAt(sel, k);
    ItemLink(sel[k]);
  }

  lemma ItemLink(p: Post)
    ensures ItemOf(p).id == ItemOf(p).link && StartsWith(ItemOf(p).link, BaseUrl + "/")
  {
    var path := p.Path();
    assert BaseUrl + path == (BaseUrl + "/") + path[1..];
  }
}
