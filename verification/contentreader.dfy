/**
 * The build-time content reader: a depth-first walk of the content
 * directory that turns every readable `.md` file into a post, with the
 * front matter read by a parser this model takes as given.
 */
module ContentReader {
  import opened Strings
  import opened Paths
  import opened Markdown

  /**
   * The front-matter fields the walk reads. A field that is absent (or, for
   * the strings, empty) takes its default; `draft` is the truthiness of the
   * field.
   */
  datatype FrontMatter = FrontMatter(
    title: Option<string>,
    description: Option<string>,
    date: Option<int>,
    draft: bool)

  /** What the front-matter parser hands back for one file: its fields and its body. */
  datatype Parsed = Parsed(data: FrontMatter, body: string)

  /**
   * The content directory as the walk sees it. A directory that cannot be
   * listed is `readable == false`; a file whose read or parse fails has
   * `parsed == None`.
   */
  datatype Entry =
    | Directory(name: string, readable: bool, entries: seq<Entry>)
    | File(name: string, parsed: Option<Parsed>)

  /**
   * One post as the walk pushes it. The walk computes the post's six fields
   * from the file's relative path, its parsed contents and the clock; the
   * model keeps those three and states each field as a function of them.
   */
  datatype Post = Post(rel: string, file: Parsed, now: int) {
    /** `data.title`, or else the humanised last segment of the path. */
    function Title(): (r: string)
      ensures r != ""
      ensures Truthy(file.data.title) ==> r == file.data.title.value
      ensures !Truthy(file.data.title) ==> '/' !in r
    {
      Or(file.data.title, FallbackTitle(StripMd(rel)))
    }

    /** `data.description || ''`. */
    function Description(): (r: string)
      ensures Truthy(file.data.description) ==> r == file.data.description.value
      ensures !Truthy(file.data.description) ==> r == ""
    {
      Or(file.data.description, "")
    }

    /** `data.date || new Date()`. */
    function Date(): (r: int)
      ensures file.data.date.Some? ==> r == file.data.date.value
      ensures file.data.date.None? ==> r == now
    {
      if file.data.date.Some? then file.data.date.value else now
    }

    /** `data.draft || false`. */
    function Draft(): (r: bool)
      ensures r <==> file.data.draft
    {
      file.data.draft
    }

    /** `'/' + relativePath.replace(/\.md$/, '')`. */
    function Path(): (r: string)
      ensures StartsWith(r, "/") && r[1..] == StripMd(rel)
    {
      var r := "/" + StripMd(rel);
      assert r[..1] == "/";
      r
    }

    /** The body converted to HTML. */
    function Content(): string {
      Render(file.body)
    }
  }

  /** A markdown file the walk read and parsed, with its path relative to the content root. */
  datatype Source = Source(rel: string, parsed: Parsed)

  /** The posts made from `ss`, one each, in order. */
  function MakePosts(ss: seq<Source>, now: int): (r: seq<Post>)
    ensures |r| == |ss|
  {
    if ss == [] then [] else [Post(ss[0].rel, ss[0].parsed, now)] + MakePosts(ss[1..], now)
  }

  lemma {:induction false} MakePostsAppend(a: seq<Source>, b: seq<Source>, now: int)
    ensures MakePosts(a + b, now) == MakePosts(a, now) + MakePosts(b, now)
  {
    if a == [] {
      assert a + b == b;
    } else {
      assert (a + b)[1..] == a[1..] + b;
      MakePostsAppend(a[1..], b, now);
    }
  }

  /** Each post is made from the source at the same position. */
  lemma {:induction false} MakePostsAt(ss: seq<Source>, now: int, i: nat)
    requires i < |ss|
    ensures MakePosts(ss, now)[i] == Post(ss[i].rel, ss[i].parsed, now)
  {
    if i > 0 {
      MakePostsAt(ss[1..], now, i - 1);
    }
  }

  // ---------------------------------------------------------------------
  // The walk, as the code performs it
  // ---------------------------------------------------------------------

  /**
   * The sources among the first `n` entries of `dir`, whose relative paths
   * start with `base`; `None` when listing one of the directories met fails,
   * as the exception that escapes the walk.
   */
  function ListingSources(dir: Entry, base: string, n: nat): (r: Option<seq<Source>>)
    requires dir.Directory? && n <= |dir.entries|
    decreases dir, 0, n
  {
    if n == 0 then Some([])
    else match ListingSources(dir, base, n - 1)
      case None => None
      case Some(ss) =>
        var e := dir.entries[n - 1];
        var rel := JoinRelative(base, e.name);
        if e.Directory? then
          match DirSources(e, rel)
          case None => None
          case Some(ts) => Some(ss + ts)
        else if EndsWith(e.name, ".md") && e.parsed.Some? then
          Some(ss + [Source(rel, e.parsed.value)])
        else Some(ss)
  }

  /** The sources of a whole directory, or `None` when it cannot be listed. */
  function DirSources(dir: Entry, base: string): (r: Option<seq<Source>>)
    requires dir.Directory?
    ensures !dir.readable ==> r.None?
    decreases dir, 1
  {
    if !dir.readable then None else ListingSources(dir, base, |dir.entries|)
  }

  /** What `getAllPosts` resolves to; a root that is not a directory cannot be listed. */
  function AllPosts(root: Entry, now: int): (r: Option<seq<Post>>)
    ensures root.File? ==> r.None?
    ensures root.Directory? && !root.readable ==> r.None?
  {
    if !root.Directory? then None
    else match DirSources(root, "")
      case None => None
      case Some(ss) => Some(MakePosts(ss, now))
  }

  /** A failure in the first `i` entries is not undone by the entries after them. */
  lemma {:induction false} ListingFailureSticks(dir: Entry, base: string, i: nat, n: nat)
    requires dir.Directory? && i <= n <= |dir.entries|
    requires ListingSources(dir, base, i).None?
    ensures ListingSources(dir, base, n).None?
    decreases n
  {
    if n > i {
      ListingFailureSticks(dir, base, i, n - 1);
    }
  }

  /**
   * The walk's shared state: the `posts` array that `readDirectory` pushes
   * into, and the clock reading that stands in for `new Date()`.
   */
  class PostCollector {
    var posts: seq<Post>
    const now: int

    constructor(now: int)
      ensures this.now == now && posts == []
    {
      this.now := now;
      posts := [];
    }

    /**
     * `readDirectory(currentDir, basePath)`: for each entry in order, recurse
     * into a directory, push a post for a readable `.md` file and skip
     * anything else. Returns false when a listing fails, which in the code is
     * an exception that leaves the walk.
     */
    method ReadDirectory(dir: Entry, basePath: string) returns (ok: bool)
      requires dir.Directory?
      modifies this
      ensures ok <==> DirSources(dir, basePath).Some?
      ensures ok ==> posts == old(posts) + MakePosts(DirSources(dir, basePath).value, now)
      decreases dir
    {
      if !dir.readable {
        return false;
      }
      var i := 0;
      while i < |dir.entries|
        invariant 0 <= i <= |dir.entries|
        invariant ListingSources(dir, basePath, i).Some?
        invariant posts == old(posts) + MakePosts(ListingSources(dir, basePath, i).value, now)
      {
        var done := ListingSources(dir, basePath, i).value;
        var entry := dir.entries[i];
        var rel := JoinRelative(basePath, entry.name);
        if entry.Directory? {
          var sub := ReadDirectory(entry, rel);
          if !sub {
            ListingFailureSticks(dir, basePath, i + 1, |dir.entries|);
            return false;
          }
          MakePostsAppend(done, DirSources(entry, rel).value, now);
        } else if EndsWith(entry.name, ".md") {
          match entry.parsed
          case Some(p) =>
            MakePostsAppend(done, [Source(rel, p)], now);
            posts := posts + [Post(rel, p, now)];
          case None =>
        }
        i := i + 1;
      }
      return true;
    }
  }

  /** `getAllPosts(dir)`: the posts of the whole tree, or `None` when the walk throws. */
  method GetAllPosts(root: Entry, now: int) returns (r: Option<seq<Post>>)
    ensures r == AllPosts(root, now)
  {
    if !root.Directory? {
      return None;
    }
    var collector := new PostCollector(now);
    var ok := collector.ReadDirectory(root, "");
    if ok {
      assert collector.posts == [] + MakePosts(DirSources(root, "").value, now);
      assert [] + MakePosts(DirSources(root, "").value, now) == MakePosts(DirSources(root, "").value, now);
      r := Some(collector.posts);
    } else {
      r := None;
    }
  }

  // ---------------------------------------------------------------------
  // A reference definition: list every file, then keep the `.md` ones
  // ---------------------------------------------------------------------

  /** A file met by the walk, with its path relative to the content root. */
  datatype Found = Found(rel: string, name: string, parsed: Option<Parsed>)

  /** Every file under `e`, depth first, in listing order. */
  function Files(e: Entry, rel: string): seq<Found>
    decreases e, 1
  {
    match e
    case File(name, parsed) => [Found(rel, name, parsed)]
    case Directory(_, _, es) => FilesIn(es, rel)
  }

  function FilesIn(es: seq<Entry>, base: string): seq<Found>
    decreases es, 0
  {
    if es == [] then []
    else Files(es[0], JoinRelative(base, es[0].name)) + FilesIn(es[1..], base)
  }

  /** Every directory under `e`, `e` included, can be listed. */
  predicate Readable(e: Entry)
    decreases e, 1
  {
    match e
    case File(_, _) => true
    case Directory(_, readable, es) => readable && ReadableIn(es)
  }

  predicate ReadableIn(es: seq<Entry>)
    decreases es, 0
  {
    es == [] || (Readable(es[0]) && ReadableIn(es[1..]))
  }

  /** The files that become posts: names ending in `.md` that were read and parsed. */
  function Kept(fs: seq<Found>): (r: seq<Source>)
    ensures |r| <= |fs|
  {
    if fs == [] then []
    else
      var f := fs[0];
      (if EndsWith(f.name, ".md") && f.parsed.Some? then [Source(f.rel, f.parsed.value)] else [])
      + Kept(fs[1..])
  }

  lemma {:induction false} KeptAppend(a: seq<Found>, b: seq<Found>)
    ensures Kept(a + b) == Kept(a) + Kept(b)
  {
    if a != [] {
      assert (a + b)[1..] == a[1..] + b;
      KeptAppend(a[1..], b);
    } else {
      assert a + b == b;
    }
  }

  lemma {:induction false} FilesInSnoc(es: seq<Entry>, e: Entry, base: string)
    ensures FilesIn(es + [e], base) == FilesIn(es, base) + Files(e, JoinRelative(base, e.name))
  {
    if es == [] {
      assert [e][1..] == [];
    } else {
      assert (es + [e])[0] == es[0];
      assert (es + [e])[1..] == es[1..] + [e];
      FilesInSnoc(es[1..], e, base);
      Assoc(Files(es[0], JoinRelative(base, es[0].name)), FilesIn(es[1..], base), Files(e, JoinRelative(base, e.name)));
    }
  }

  lemma {:induction false} ReadableInSnoc(es: seq<Entry>, e: Entry)
    ensures ReadableIn(es + [e]) == (ReadableIn(es) && Readable(e))
  {
    if es == [] {
      assert [e][1..] == [];
    } else {
      assert (es + [e])[1..] == es[1..] + [e];
      ReadableInSnoc(es[1..], e);
    }
  }

  /** The walk of one directory agrees with the reference definition. */
  lemma {:induction false} DirSourcesReference(dir: Entry, base: string)
    requires dir.Directory?
    ensures DirSources(dir, base) == if Readable(dir) then Some(Kept(Files(dir, base))) else None
    decreases dir, 1
  {
    ListingReference(dir, base, |dir.entries|);
    assert dir.entries[..|dir.entries|] == dir.entries;
  }

  lemma {:induction false} ListingReference(dir: Entry, base: string, n: nat)
    requires dir.Directory? && n <= |dir.entries|
    ensures ListingSources(dir, base, n)
         == if ReadableIn(dir.entries[..n]) then Some(Kept(FilesIn(dir.entries[..n], base))) else None
    decreases dir, 0, n
  {
    var es := dir.entries;
    if n == 0 {
      assert es[..0] == [];
    } else {
      ListingReference(dir, base, n - 1);
      var e := es[n - 1];
      var rel := JoinRelative(base, e.name);
      assert es[..n] == es[..n - 1] + [e];
      FilesInSnoc(es[..n - 1], e, base);
      ReadableInSnoc(es[..n - 1], e);
      KeptAppend(FilesIn(es[..n - 1], base), Files(e, rel));
      if e.Directory? {
        DirSourcesReference(e, rel);
      } else {
        assert Files(e, rel) == [Found(rel, e.name, e.parsed)];
        FileStep(dir, base, n);
      }
    }
  }

  /** Listing one more entry that is a file adds what the reference keeps of it. */
  lemma FileStep(dir: Entry, base: string, n: nat)
    requires dir.Directory? && 0 < n <= |dir.entries| && dir.entries[n - 1].File?
    ensures ListingSources(dir, base, n)
         == match ListingSources(dir, base, n - 1)
            case None => None
            case Some(ss) =>
              var e := dir.entries[n - 1];
              Some(ss + Kept([Found(JoinRelative(base, e.name), e.name, e.parsed)]))
  {
    var e := dir.entries[n - 1];
    var f := Found(JoinRelative(base, e.name), e.name, e.parsed);
    if ListingSources(dir, base, n - 1).Some? {
      var ss := ListingSources(dir, base, n - 1).value;
      if EndsWith(e.name, ".md") && e.parsed.Some? {
        assert Kept([f]) == [Source(f.rel, e.parsed.value)] + Kept([]);
        assert Kept([f]) == [Source(f.rel, e.parsed.value)];
        assert ListingSources(dir, base, n) == Some(ss + [Source(f.rel, e.parsed.value)]);
      } else {
        assert Kept([f]) == [] + Kept([]);
        assert ss + Kept([f]) == ss;
        assert ListingSources(dir, base, n) == Some(ss);
      }
    }
  }

  /**
   * `getAllPosts` resolves exactly when every directory can be listed, and
   * then to one post for each `.md` file that was read and parsed, in
   * depth-first listing order.
   */
  lemma AllPostsReference(root: Entry, now: int)
    ensures AllPosts(root, now)
         == if root.Directory? && Readable(root) then Some(MakePosts(Kept(Files(root, "")), now)) else None
  {
    if root.Directory? {
      DirSourcesReference(root, "");
    }
  }

  /** A file that fails to read or parse is skipped and the walk goes on: it adds no source and changes no other. */
  lemma SkippedFile(a: seq<Found>, f: Found, b: seq<Found>)
    requires f.parsed.None? || !EndsWith(f.name, ".md")
    ensures Kept(a + [f] + b) == Kept(a) + Kept(b)
  {
    KeptAppend(a + [f], b);
    KeptAppend(a, [f]);
  }

  /** A parsed `.md` file adds exactly its own source, between those before and after it. */
  lemma MarkdownFile(a: seq<Found>, f: Found, b: seq<Found>)
    requires EndsWith(f.name, ".md") && f.parsed.Some?
    ensures Kept(a + [f] + b) == Kept(a) + [Source(f.rel, f.parsed.value)] + Kept(b)
  {
    KeptAppend(a + [f], b);
    KeptAppend(a, [f]);
  }

  /**
   * A file `stem.md` in directory `d` with no front-matter title gives the
   * post path `/d/stem` and the title `stem` with hyphens read as spaces.
   */
  lemma NestedPost(d: string, stem: string, p: Parsed, now: int)
    requires d != "" && stem != "" && '/' !in stem && !Truthy(p.data.title)
    ensures Post(JoinRelative(d, stem + ".md"), p, now).Path() == "/" + d + "/" + stem
    ensures Post(JoinRelative(d, stem + ".md"), p, now).Title() == ReplaceChar(stem, '-', ' ')
  {
    var post := Post(JoinRelative(d, stem + ".md"), p, now);
    NestedStem(d, stem);
    assert post.Path() == "/" + ((d + "/") + stem);
    Regroup("/", d, "/", stem);
    LastSegmentOfSuffix(d + "/", stem);
    assert post.Title() == FallbackTitle((d + "/") + stem);
  }

  lemma Regroup(a: string, b: string, c: string, e: string)
    ensures a + b + c + e == a + ((b + c) + e)
  {
  }

  lemma NestedStem(d: string, stem: string)
    requires d != ""
    ensures StripMd(JoinRelative(d, stem + ".md")) == (d + "/") + stem
  {
    var rel := d + "/" + stem + ".md";
    assert JoinRelative(d, stem + ".md") == rel;
    assert rel == ((d + "/") + stem) + ".md";
    StripMdInverse((d + "/") + stem);
  }

  /** `content/foo/bar.md` gives the post path `/foo/bar` and, without a title, the title `bar`. */
  lemma FooBarExample(p: Parsed, now: int)
    requires !Truthy(p.data.title)
    ensures Post("foo/bar.md", p, now).Path() == "/foo/bar"
    ensures Post("foo/bar.md", p, now).Title() == "bar"
  {
    NestedPost("foo", "bar", p, now);
    assert JoinRelative("foo", "bar" + ".md") == "foo/bar.md";
    assert ReplaceChar("bar", '-', ' ') == "bar";
  }
}
