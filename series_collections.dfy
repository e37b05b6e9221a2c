/**
 * The slug-keyed series index (src/_11ty/collections/seriesCollections.js).
 *
 * The series landing pages are sorted by title. Every item whose
 * `data.series` is set is pushed onto the list of its `series.slug`, the
 * first such item supplying the description; each list is then sorted in
 * place by `series.order`, and the first title-ordered landing page whose
 * template name equals the slug is attached to it.
 *
 * The result object is a map from slug to record. A list that the source
 * sorts in place is handed to the array sort as a fresh array holding the
 * same items (nothing else refers to it).
 */
module SeriesCollections {
  import opened Wrappers
  import ArraySort

  /** The `series` front matter of an item. */
  datatype SeriesTag = SeriesTag(slug: string, description: string, order: int)

  /** An item of the whole collection; `series` is None when `data.series` is falsy. */
  datatype Item = Item(url: string, series: Option<SeriesTag>)

  /** A series landing page: the file name of its template, and its title. */
  datatype Page = Page(name: string, title: string)

  /** The record built for one slug. `collection` is None when no landing page matches. */
  datatype SeriesCollection = SeriesCollection(posts: seq<Item>, description: string, collection: Option<Page>)

  predicate HasSlug(item: Item, slug: string)
  {
    item.series.Some? && item.series.value.slug == slug
  }

  ghost predicate SlugOccurs(s: seq<Item>, slug: string)
  {
    exists i :: 0 <= i < |s| && HasSlug(s[i], slug)
  }

  /** An item's `series.order`; only items of a series are ever compared. */
  function OrderOf(item: Item): int
  {
    if item.series.Some? then item.series.value.order else 0
  }

  /** The per-series comparator: `a.data.series.order - b.data.series.order`. */
  function ByOrder(a: Item, b: Item): (r: int)
    ensures r < 0 <==> OrderOf(a) < OrderOf(b)
    ensures r == 0 <==> OrderOf(a) == OrderOf(b)
    ensures r > 0 <==> OrderOf(a) > OrderOf(b)
  {
    OrderOf(a) - OrderOf(b)
  }

  /** The landing-page comparator, on titles, through the engine's `localeCompare`. */
  function ByTitle(localeCompare: (string, string) -> int): ArraySort.Comparator<Page>
  {
    (a: Page, b: Page) => localeCompare(a.title, b.title)
  }

  /** The items of one series, in collection order. */
  function WithSlug(s: seq<Item>, slug: string): seq<Item>
  {
    if s == [] then []
    else WithSlug(s[..|s| - 1], slug) + (if HasSlug(s[|s| - 1], slug) then [s[|s| - 1]] else [])
  }

  /** The position of the first item of a series. */
  ghost function FirstWithSlug(s: seq<Item>, slug: string): (i: nat)
    requires SlugOccurs(s, slug)
    ensures i < |s| && HasSlug(s[i], slug)
    ensures forall j :: 0 <= j < i ==> !HasSlug(s[j], slug)
    decreases |s|
  {
    var n := |s| - 1;
    if SlugOccurs(s[..n], slug) then FirstWithSlug(s[..n], slug)
    else
      assert forall j :: 0 <= j < n ==> s[..n][j] == s[j];
      n
  }

  /** `Array.prototype.find` for a page whose template name is `name`. */
  function FindByName(pages: seq<Page>, name: string): (r: Option<Page>)
    ensures r.None? <==> forall i :: 0 <= i < |pages| ==> pages[i].name != name
    ensures r.Some? ==> exists i :: (0 <= i < |pages| && pages[i] == r.value && r.value.name == name &&
                                     forall j :: 0 <= j < i ==> pages[j].name != name)
  {
    if pages == [] then None
    else if pages[0].name == name then Some(pages[0])
    else
      var r := FindByName(pages[1..], name);
      assert forall i :: 0 < i < |pages| ==> pages[1..][i - 1] == pages[i];
      r
  }

  /** The record seriesCollections.js builds for `slug`. */
  ghost function CollectionFor(all: seq<Item>, pages: seq<Page>, localeCompare: (string, string) -> int,
                               slug: string): SeriesCollection
    requires SlugOccurs(all, slug)
  {
    SeriesCollection(
      ArraySort.StableSort(WithSlug(all, slug), ByOrder),
      all[FirstWithSlug(all, slug)].series.value.description,
      LandingPage(pages, localeCompare, slug))
  }

  /** The first landing page, in title order, whose template is named `slug`. */
  function LandingPage(pages: seq<Page>, localeCompare: (string, string) -> int, slug: string): Option<Page>
  {
    FindByName(ArraySort.StableSort(pages, ByTitle(localeCompare)), slug)
  }

  /** The map after the `forEach` over the first items `scanned`: unsorted lists, no page yet. */
  ghost predicate Gathered(scanned: seq<Item>, collections: map<string, SeriesCollection>)
  {
    && (forall slug :: slug in collections <==> SlugOccurs(scanned, slug))
    && (forall slug :: slug in collections ==>
          collections[slug] == SeriesCollection(WithSlug(scanned, slug),
                                                scanned[FirstWithSlug(scanned, slug)].series.value.description,
                                                None))
  }

  /**
   * Builds the slug-keyed index from the whole collection `all`, the landing
   * pages `seriesPages` (in the order the framework's glob returns them) and
   * the engine's string collation.
   */
  method BuildSeriesCollections(all: seq<Item>, seriesPages: seq<Page>, localeCompare: (string, string) -> int)
    returns (r: map<string, SeriesCollection>)
    ensures forall slug :: slug in r <==> SlugOccurs(all, slug)
    ensures forall slug :: slug in r ==> r[slug] == CollectionFor(all, seriesPages, localeCompare, slug)
  {
    var raw := new Page[|seriesPages|](k requires 0 <= k < |seriesPages| => seriesPages[k]);
    assert raw[..] == seriesPages;
    ArraySort.SortInPlace(raw, ByTitle(localeCompare));
    var rawSeriesCollections := raw[..];

    var collections := GatherAll(all);
    assert Gathered(all, collections);

    r := SortAndAttach(all, seriesPages, localeCompare, rawSeriesCollections, collections);
  }

  /** The loop over the entries: sorts every slug's list and attaches its landing page. */
  method SortAndAttach(all: seq<Item>, seriesPages: seq<Page>, localeCompare: (string, string) -> int,
                       rawSeriesCollections: seq<Page>, collections: map<string, SeriesCollection>)
    returns (r: map<string, SeriesCollection>)
    requires rawSeriesCollections == ArraySort.StableSort(seriesPages, ByTitle(localeCompare))
    requires Gathered(all, collections)
    ensures forall slug :: slug in r <==> SlugOccurs(all, slug)
    ensures forall slug :: slug in r ==> r[slug] == CollectionFor(all, seriesPages, localeCompare, slug)
  {
    r := collections;
    var pending := collections.Keys;
    while pending != {}
      invariant Attaching(all, seriesPages, localeCompare, collections, r, pending)
      decreases pending
    {
      var slug :| slug in pending;
      var c := FinishCollection(all, seriesPages, localeCompare, rawSeriesCollections, collections, slug, r[slug]);
      AttachStep(all, seriesPages, localeCompare, collections, r, pending, slug, c);
      r := r[slug := c];
      pending := pending - {slug};
    }
  }

  lemma AttachStep(all: seq<Item>, pages: seq<Page>, localeCompare: (string, string) -> int,
                   collections: map<string, SeriesCollection>, r: map<string, SeriesCollection>,
                   pending: set<string>, slug: string, c: SeriesCollection)
    requires Attaching(all, pages, localeCompare, collections, r, pending)
    requires slug in pending && Finished(all, pages, localeCompare, slug, c)
    ensures Attaching(all, pages, localeCompare, collections, r[slug := c], pending - {slug})
  {
  }

  /** The second loop's state: the slugs in `pending` are untouched, the others finished. */
  ghost predicate Attaching(all: seq<Item>, pages: seq<Page>, localeCompare: (string, string) -> int,
                            collections: map<string, SeriesCollection>, r: map<string, SeriesCollection>,
                            pending: set<string>)
  {
    && pending <= collections.Keys
    && r.Keys == collections.Keys
    && (forall slug :: slug in pending ==> r[slug] == collections[slug])
    && (forall slug :: slug in r && slug !in pending ==> Finished(all, pages, localeCompare, slug, r[slug]))
  }

  /** `c` is the finished record of a slug that occurs in `all`. */
  ghost predicate Finished(all: seq<Item>, pages: seq<Page>, localeCompare: (string, string) -> int,
                           slug: string, c: SeriesCollection)
  {
    SlugOccurs(all, slug) && c == CollectionFor(all, pages, localeCompare, slug)
  }

  /** The `forEach` over the whole collection. */
  method GatherAll(all: seq<Item>) returns (collections: map<string, SeriesCollection>)
    ensures Gathered(all, collections)
  {
    collections := map[];
    var i := 0;
    while i < |all|
      invariant 0 <= i <= |all|
      invariant Gathered(all[..i], collections)
    {
      collections := GatherItem(all, i, collections);
      i := i + 1;
    }
    assert all[..i] == all;
  }

  /**
   * The second loop's body for one slug: sorts the slug's list in place by
   * `series.order` and attaches the first title-ordered page named after it.
   */
  method FinishCollection(all: seq<Item>, seriesPages: seq<Page>, localeCompare: (string, string) -> int,
                          rawSeriesCollections: seq<Page>, collections: map<string, SeriesCollection>,
                          slug: string, c: SeriesCollection)
    returns (c': SeriesCollection)
    requires rawSeriesCollections == ArraySort.StableSort(seriesPages, ByTitle(localeCompare))
    requires Gathered(all, collections)
    requires slug in collections && c == collections[slug]
    ensures Finished(all, seriesPages, localeCompare, slug, c')
  {
    var posts := c.posts;
    var list := new Item[|posts|](k requires 0 <= k < |posts| => posts[k]);
    assert list[..] == posts;
    ArraySort.SortInPlace(list, ByOrder);
    c' := c.(posts := list[..], collection := FindByName(rawSeriesCollections, slug));
  }

  /** One call of the `forEach` callback: files `all[i]` under its slug, if it has one. */
  method GatherItem(all: seq<Item>, i: nat, collections: map<string, SeriesCollection>)
    returns (collections': map<string, SeriesCollection>)
    requires i < |all|
    requires Gathered(all[..i], collections)
    ensures Gathered(all[..i + 1], collections')
  {
    var item := all[i];
    ItemStep(all, i);
    collections' := collections;
    if item.series.Some? {
      var slug := item.series.value.slug;
      if slug !in collections' {
        collections' := collections'[slug := SeriesCollection([], item.series.value.description, None)];
      }
      collections' := collections'[slug := collections'[slug].(posts := collections'[slug].posts + [item])];
    }
    forall slug | slug in collections'
      ensures collections'[slug] == SeriesCollection(WithSlug(all[..i + 1], slug),
                all[..i + 1][FirstWithSlug(all[..i + 1], slug)].series.value.description, None)
    {
      if HasSlug(item, slug) && !SlugOccurs(all[..i], slug) {
        NoItemsWithout(all[..i], slug);
      }
    }
  }

  // ---------------------------------------------------------------------------
  // Facts about one step of the `forEach`.

  lemma ItemStep(all: seq<Item>, i: nat)
    requires i < |all|
    ensures all[..i + 1][..i] == all[..i]
    ensures all[..i + 1][i] == all[i]
    ensures forall slug :: SlugOccurs(all[..i + 1], slug) <==> SlugOccurs(all[..i], slug) || HasSlug(all[i], slug)
    ensures forall slug :: SlugOccurs(all[..i], slug) ==> FirstWithSlug(all[..i + 1], slug) == FirstWithSlug(all[..i], slug)
    ensures forall slug :: HasSlug(all[i], slug) && !SlugOccurs(all[..i], slug) ==> FirstWithSlug(all[..i + 1], slug) == i
  {
    assert all[..i + 1][..i] == all[..i];
    assert forall j :: 0 <= j < i ==> all[..i + 1][j] == all[..i][j];
    if all[i].series.Some? {
      assert HasSlug(all[..i + 1][i], all[i].series.value.slug);
    }
  }

  lemma {:induction false} NoItemsWithout(s: seq<Item>, slug: string)
    requires !SlugOccurs(s, slug)
    ensures WithSlug(s, slug) == []
  {
    if s != [] {
      var n := |s| - 1;
      assert forall j :: 0 <= j < n ==> s[..n][j] == s[j];
      NoItemsWithout(s[..n], slug);
    }
  }

  // ---------------------------------------------------------------------------
  // Properties of the index.

  /** A series' list holds exactly the items carrying its slug, each as often as in the collection. */
  lemma {:induction false} WithSlugCounts(s: seq<Item>, slug: string)
    ensures forall x :: multiset(WithSlug(s, slug))[x] == if HasSlug(x, slug) then multiset(s)[x] else 0
  {
    if s != [] {
      var n := |s| - 1;
      WithSlugCounts(s[..n], slug);
      assert s == s[..n] + [s[n]];
    }
  }

  /** Each series' posts are a permutation of exactly the items with that slug. */
  lemma PostsArePermutation(all: seq<Item>, pages: seq<Page>, localeCompare: (string, string) -> int, slug: string)
    requires SlugOccurs(all, slug)
    ensures forall x :: (multiset(CollectionFor(all, pages, localeCompare, slug).posts)[x] ==
                         if HasSlug(x, slug) then multiset(all)[x] else 0)
  {
    ArraySort.StableSortPermutes(WithSlug(all, slug), ByOrder);
    WithSlugCounts(all, slug);
  }

  /** `series.order` differences give a consistent comparator. */
  lemma ByOrderConsistent()
    ensures ArraySort.Consistent(ByOrder)
  {
  }

  /** Each series' posts are in non-decreasing `series.order`. */
  lemma PostsSortedByOrder(all: seq<Item>, pages: seq<Page>, localeCompare: (string, string) -> int, slug: string)
    requires SlugOccurs(all, slug)
    ensures var posts := CollectionFor(all, pages, localeCompare, slug).posts;
      forall i, j :: 0 <= i < j < |posts| ==> OrderOf(posts[i]) <= OrderOf(posts[j])
  {
    ByOrderConsistent();
    ArraySort.StableSortSorted(WithSlug(all, slug), ByOrder);
  }

  /**
   * Posts of a series with equal `series.order` keep their collection order:
   * for any item `e`, the posts ranked equal to `e` appear in the same
   * relative order as among the series' items in the collection.
   */
  lemma TiesKeepCollectionOrder(all: seq<Item>, pages: seq<Page>, localeCompare: (string, string) -> int,
                                slug: string, e: Item)
    requires SlugOccurs(all, slug)
    ensures ArraySort.Ties(CollectionFor(all, pages, localeCompare, slug).posts, e, ByOrder) ==
      ArraySort.Ties(WithSlug(all, slug), e, ByOrder)
  {
    ByOrderConsistent();
    ArraySort.StableSortKeepsTies(WithSlug(all, slug), e, ByOrder);
  }

  /** The description is that of the first item of the series; later items do not change it. */
  lemma DescriptionFromFirstItem(all: seq<Item>, pages: seq<Page>, localeCompare: (string, string) -> int, slug: string)
    requires SlugOccurs(all, slug)
    ensures exists f :: (0 <= f < |all| && HasSlug(all[f], slug) && (forall j :: 0 <= j < f ==> !HasSlug(all[j], slug)) &&
                         CollectionFor(all, pages, localeCompare, slug).description == all[f].series.value.description)
  {
    var f := FirstWithSlug(all, slug);
    assert CollectionFor(all, pages, localeCompare, slug).description == all[f].series.value.description;
  }

  lemma ByTitlePreorder(localeCompare: (string, string) -> int)
    requires ArraySort.TotalPreorder(localeCompare)
    ensures ArraySort.TotalPreorder(ByTitle(localeCompare))
  {
    var cmp := ByTitle(localeCompare);
    forall a: Page, b: Page ensures cmp(a, b) > 0 ==> cmp(b, a) <= 0 {
      assert cmp(a, b) == localeCompare(a.title, b.title) && cmp(b, a) == localeCompare(b.title, a.title);
    }
    forall a: Page, b: Page, c: Page | cmp(a, b) <= 0 && cmp(b, c) <= 0 ensures cmp(a, c) <= 0 {
      assert cmp(a, b) == localeCompare(a.title, b.title) && cmp(b, c) == localeCompare(b.title, c.title);
      assert cmp(a, c) == localeCompare(a.title, c.title);
    }
  }

  /**
   * The attached landing page is absent exactly when no page's template is
   * named after the slug; otherwise it is such a page, and no such page has a
   * title that collates before it.
   */
  lemma LandingPageIsFirstByTitle(pages: seq<Page>, localeCompare: (string, string) -> int, slug: string)
    requires ArraySort.TotalPreorder(localeCompare)
    ensures var c := LandingPage(pages, localeCompare, slug);
      && (c.None? <==> forall i :: 0 <= i < |pages| ==> pages[i].name != slug)
      && (c.Some? ==> c.value in pages && c.value.name == slug &&
                      forall q :: q in pages && q.name == slug ==> localeCompare(c.value.title, q.title) <= 0)
  {
    var cmp := ByTitle(localeCompare);
    var sorted := ArraySort.StableSort(pages, cmp);
    ArraySort.StableSortKeepsMembers(pages, cmp);
    var c := FindByName(sorted, slug);
    assert c == LandingPage(pages, localeCompare, slug);
    if c.Some? {
      assert c.value in pages;
      var k :| 0 <= k < |pages| && pages[k] == c.value;
      assert pages[k].name == slug;
      ByTitlePreorder(localeCompare);
      ArraySort.StableSortSorted(pages, cmp);
      forall q | q in pages && q.name == slug ensures localeCompare(c.value.title, q.title) <= 0 {
        FoundFirst(sorted, slug, q, cmp);
      }
    } else {
      forall p | 0 <= p < |pages| ensures pages[p].name != slug {
        assert pages[p] in sorted;
      }
    }
  }

  /** In a sorted list the page `find` returns is ranked no later than any page of the same name. */
  lemma FoundFirst(sorted: seq<Page>, slug: string, q: Page, cmp: ArraySort.Comparator<Page>)
    requires ArraySort.TotalPreorder(cmp) && ArraySort.SortedBy(sorted, cmp)
    requires q in sorted && q.name == slug
    ensures FindByName(sorted, slug).Some? && cmp(FindByName(sorted, slug).value, q) <= 0
  {
    var c := FindByName(sorted, slug);
    var k :| 0 <= k < |sorted| && sorted[k] == q;
    var i :| (0 <= i < |sorted| && sorted[i] == c.value && c.value.name == slug &&
              forall j :: 0 <= j < i ==> sorted[j].name != slug);
    assert i <= k;
    if i == k {
      assert cmp(q, q) > 0 ==> cmp(q, q) <= 0;
    }
  }
}
