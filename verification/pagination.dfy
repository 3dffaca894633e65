/**
 * The blog index's pagination (app/composables/usePagination.ts): one page of
 * the published records, newest first, the number of published records, and
 * the number of pages they fill.
 */
module Pagination {
  import opened Strings
  import opened Query
  import opened Collection

  /** The options object; a missing option takes its default. */
  datatype Options = Options(currentPage: Option<int>, postsPerPage: Option<int>, collection: Option<string>)

  const DefaultPage: int := 1
  const DefaultPerPage: int := 5
  const DefaultCollection: string := "content"

  /** The value of `Math.ceil(totalCount / postsPerPage)`: a whole number, `Infinity` or `NaN`. */
  datatype PageCount = Pages(count: int) | Infinity | NotANumber

  /** `Math.ceil(n / d)` for a count `n`: dividing by zero gives `Infinity`, or `NaN` for `0 / 0`. */
  function CeilDiv(n: nat, d: int): (r: PageCount)
    ensures d != 0 ==> r.Pages?
    ensures d == 0 ==> (r == Infinity <==> n > 0) && (r == NotANumber <==> n == 0)
  {
    if d > 0 then Pages((n + d - 1) / d)
    else if d == 0 then (if n > 0 then Infinity else NotANumber)
    else Pages(-(n / -d))
  }

  /** The whole number `CeilDiv` gives is the least `c` with `n / d <= c`. */
  lemma CeilDivBounds(n: nat, d: int)
    requires d != 0
    ensures d > 0 ==> 0 <= CeilDiv(n, d).count && (CeilDiv(n, d).count - 1) * d < n <= CeilDiv(n, d).count * d
    ensures d < 0 ==> CeilDiv(n, d).count * d <= n < (CeilDiv(n, d).count - 1) * d
  {
    if d > 0 {
      var q := (n + d - 1) / d;
      assert q * d <= n + d - 1 < (q + 1) * d;
    } else {
      var q := n / -d;
      assert q * -d <= n < (q + 1) * -d;
    }
  }

  /** What `usePagination` returns. */
  datatype Result = Result(
    pages: seq<Record>,
    currentPage: int,
    totalPages: PageCount,
    totalCount: nat,
    postsPerPage: int)

  function PageOf(o: Options): int {
    if o.currentPage.Some? then o.currentPage.value else DefaultPage
  }

  function PerPageOf(o: Options): int {
    if o.postsPerPage.Some? then o.postsPerPage.value else DefaultPerPage
  }

  function CollectionOf(o: Options): string {
    if o.collection.Some? then o.collection.value else DefaultCollection
  }

  /**
   * `where('draft', '=', false).order('date', 'DESC').skip((page - 1) * perPage).limit(perPage)`.
   */
  function PageQuery(records: seq<Record>, page: int, perPage: int): (r: seq<Record>)
    ensures perPage >= 0 ==> |r| <= perPage
    ensures forall x :: x in r ==> x in records && IsPublished(x)
  {
    assert perPage >= 0 ==> |Newest(records, IsPublished, StampOf, (page - 1) * perPage, perPage)| <= perPage by {
      if perPage >= 0 {
        NewestAtMost(records, IsPublished, StampOf, (page - 1) * perPage, perPage);
      }
    }
    Newest(records, IsPublished, StampOf, (page - 1) * perPage, perPage)
  }

  /**
   * `usePagination(options)` over a content store. When the collection cannot
   * be queried there is no result, and the page list and count fall back to
   * empty and zero.
   */
  function UsePagination(o: Options, store: Store): (r: Result)
    ensures r.currentPage == PageOf(o) && r.postsPerPage == PerPageOf(o)
    ensures r.totalPages == CeilDiv(r.totalCount, r.postsPerPage)
    ensures CollectionOf(o) !in store ==> r.pages == [] && r.totalCount == 0
    ensures CollectionOf(o) in store ==> r.totalCount == |Filter(store[CollectionOf(o)], IsPublished)|
    ensures forall x :: x in r.pages ==> x in store[CollectionOf(o)] && !x.draft
  {
    var page := PageOf(o);
    var perPage := PerPageOf(o);
    var collection := CollectionOf(o);
    var fetched: Option<(seq<Record>, nat)> :=
      if collection in store then
        var records := store[collection];
        Some((PageQuery(records, page, perPage), |Filter(records, IsPublished)|))
      else None;
    var pages := if fetched.Some? then fetched.value.0 else [];
    var totalCount := if fetched.Some? then fetched.value.1 else 0;
    Result(pages, page, CeilDiv(totalCount, perPage), totalCount, perPage)
  }

  /** Without options: the first page of five from the `content` collection. */
  lemma Defaults(store: Store)
    ensures var r := UsePagination(Options(None, None, None), store);
      r.currentPage == 1 && r.postsPerPage == 5 &&
      ("content" in store ==> r.pages == PageQuery(store["content"], 1, 5))
  {
  }

  /**
   * A page is the run of the sorted published records that starts after the
   * earlier pages, at most `postsPerPage` long.
   */
  lemma PageWindow(o: Options, store: Store)
    requires CollectionOf(o) in store && PageOf(o) >= 1 && PerPageOf(o) >= 0
    ensures var sorted := SortNewestFirst(Filter(store[CollectionOf(o)], IsPublished), StampOf);
      var skip := (PageOf(o) - 1) * PerPageOf(o);
      var pages := UsePagination(o, store).pages;
      var left := if skip < |sorted| then |sorted| - skip else 0;
      0 <= skip && |pages| == (if PerPageOf(o) < left then PerPageOf(o) else left) &&
      (skip < |sorted| ==> skip + |pages| <= |sorted| && pages == sorted[skip..skip + |pages|])
  {
    var records := store[CollectionOf(o)];
    var skip := (PageOf(o) - 1) * PerPageOf(o);
    NonNegativeProduct(PageOf(o) - 1, PerPageOf(o));
    assert UsePagination(o, store).pages == Newest(records, IsPublished, StampOf, skip, PerPageOf(o));
    WindowSlice(records, skip, PerPageOf(o));
  }

  /** The window after `skip` sorted published records, at most `per` long. */
  lemma WindowSlice(records: seq<Record>, skip: nat, per: nat)
    ensures var sorted := SortNewestFirst(Filter(records, IsPublished), StampOf);
      var w := Newest(records, IsPublished, StampOf, skip, per);
      var left := if skip < |sorted| then |sorted| - skip else 0;
      |w| == (if per < left then per else left) &&
      (skip < |sorted| ==> skip + |w| <= |sorted| && w == sorted[skip..skip + |w|])
  {
    NewestWindow(records, IsPublished, StampOf, skip, per);
    NewestSize(records, IsPublished, StampOf, skip, per);
  }

  lemma NonNegativeProduct(a: int, b: int)
    requires a >= 0 && b >= 0
    ensures a * b >= 0
  {
  }

  /** Each page is ordered newest first. */
  lemma PageOrdered(o: Options, store: Store)
    ensures NewestFirst(UsePagination(o, store).pages, StampOf)
  {
    if CollectionOf(o) in store {
      NewestOrdered(store[CollectionOf(o)], IsPublished, StampOf, (PageOf(o) - 1) * PerPageOf(o), PerPageOf(o));
    }
  }

  /** The count depends on the collection alone, not on the page asked for. */
  lemma CountIgnoresPage(o: Options, store: Store, page: Option<int>)
    ensures var r := UsePagination(o, store);
      var r' := UsePagination(o.(currentPage := page), store);
      r'.totalCount == r.totalCount && r'.totalPages == r.totalPages
  {
  }

  /**
   * Paging covers the sorted published records exactly: the record at place
   * `i` is at place `i % postsPerPage` of page `i / postsPerPage + 1`.
   */
  lemma RecordOnPage(o: Options, store: Store, i: nat)
    requires CollectionOf(o) in store && PerPageOf(o) > 0
    requires i < |Filter(store[CollectionOf(o)], IsPublished)|
    ensures var per := PerPageOf(o);
      var sorted := SortNewestFirst(Filter(store[CollectionOf(o)], IsPublished), StampOf);
      var pages := UsePagination(o.(currentPage := Some(i / per + 1)), store).pages;
      i % per < |pages| && pages[i % per] == sorted[i]
  {
    var per := PerPageOf(o);
    var records := store[CollectionOf(o)];
    var o' := o.(currentPage := Some(i / per + 1));
    assert UsePagination(o', store).pages == PageQuery(records, i / per + 1, per);
    PageQueryAt(records, i, per);
  }

  /** Sorted published record `i` sits at place `i % per` of page `i / per + 1`. */
  lemma PageQueryAt(records: seq<Record>, i: nat, per: int)
    requires per > 0 && i < |Filter(records, IsPublished)|
    ensures var page := PageQuery(records, i / per + 1, per);
      i % per < |page| && page[i % per] == SortNewestFirst(Filter(records, IsPublished), StampOf)[i]
  {
    var q, m := i / per, i % per;
    DivModSplit(i, per);
    assert (q + 1 - 1) * per == q * per;
    WindowAt(records, q * per, per, m);
  }

  /** Place `m` of the window that skips `skip` records holds sorted record `skip + m`. */
  lemma WindowAt(records: seq<Record>, skip: nat, per: nat, m: nat)
    requires m < per && skip + m < |Filter(records, IsPublished)|
    ensures var w := Newest(records, IsPublished, StampOf, skip, per);
      m < |w| && w[m] == SortNewestFirst(Filter(records, IsPublished), StampOf)[skip + m]
  {
    NewestWindow(records, IsPublished, StampOf, skip, per);
    NewestSize(records, IsPublished, StampOf, skip, per);
  }

  lemma DivModSplit(i: nat, per: int)
    requires per > 0
    ensures 0 <= i / per && 0 <= (i / per) * per <= i && (i / per) * per + i % per == i && i % per < per
  {
  }

  /** With a positive page size, the pages after the last one are empty, and every page up to it holds records. */
  lemma LastPage(o: Options, store: Store)
    requires CollectionOf(o) in store && PerPageOf(o) > 0 && PageOf(o) >= 1
    ensures var r := UsePagination(o, store);
      r.totalPages.Pages? && (r.pages == [] <==> PageOf(o) > r.totalPages.count)
  {
    var records := store[CollectionOf(o)];
    assert UsePagination(o, store).pages == PageQuery(records, PageOf(o), PerPageOf(o));
    EmptyPage(records, PageOf(o), PerPageOf(o));
  }

  /** A page of a positive size is empty exactly when its number is past the ceiling of count over size. */
  lemma EmptyPage(records: seq<Record>, p: int, per: int)
    requires per > 0 && p >= 1
    ensures var n := |Filter(records, IsPublished)|;
      CeilDiv(n, per).Pages? && (PageQuery(records, p, per) == [] <==> p > CeilDiv(n, per).count)
  {
    var n := |Filter(records, IsPublished)|;
    var skip := (p - 1) * per;
    NonNegativeProduct(p - 1, per);
    EmptyWindow(records, skip, per);
    PagesPast(n, per, p);
  }

  /** A window of positive size is empty exactly when it skips every published record. */
  lemma EmptyWindow(records: seq<Record>, skip: nat, per: nat)
    requires per > 0
    ensures Newest(records, IsPublished, StampOf, skip, per) == [] <==> skip >= |Filter(records, IsPublished)|
  {
    WindowSlice(records, skip, per);
  }

  /** Page `p` skips at least `n` records exactly when it is past the ceiling of `n / per`. */
  lemma PagesPast(n: nat, per: int, p: int)
    requires per > 0
    ensures CeilDiv(n, per).Pages? && ((p - 1) * per >= n <==> p > CeilDiv(n, per).count)
  {
    CeilDivBounds(n, per);
    PastLast(n, per, CeilDiv(n, per).count, p);
  }

  /** Page `p` starts at or past the end exactly when `p` is beyond the last page. */
  lemma PastLast(total: nat, d: int, c: int, p: int)
    requires d > 0 && (c - 1) * d < total <= c * d
    ensures (p - 1) * d >= total <==> p > c
  {
    if p > c {
      assert (p - 1) * d >= c * d by {
        MulMonotone(c, p - 1, d);
      }
    } else {
      assert (p - 1) * d <= (c - 1) * d by {
        MulMonotone(p - 1, c - 1, d);
      }
    }
  }

  lemma MulMonotone(a: int, b: int, d: int)
    requires a <= b && d >= 0
    ensures a * d <= b * d
  {
    NonNegativeProduct(b - a, d);
  }

  /** Twelve published records at five a page fill three pages, and the third holds two of them. */
  lemma TwelveByFive(records: seq<Record>)
    requires |records| == 12 && forall i :: 0 <= i < |records| ==> !records[i].draft
    ensures var r := UsePagination(Options(Some(3), Some(5), None), map["content" := records]);
      r.totalCount == 12 && r.totalPages == Pages(3) && |r.pages| == 2
  {
    FilterAll(records, IsPublished);
    CeilDivBounds(12, 5);
    PageWindow(Options(Some(3), Some(5), None), map["content" := records]);
  }

  /** Without a result, the page list is empty and the count is zero; with a positive page size there are no pages either. */
  lemma NoResult(o: Options, store: Store)
    requires CollectionOf(o) !in store
    ensures var r := UsePagination(o, store);
      r.pages == [] && r.totalCount == 0 && (PerPageOf(o) > 0 ==> r.totalPages == Pages(0))
  {
  }
}
