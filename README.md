# Blog collections, modelled in Dafny

The site's Eleventy build adds three collection helpers of its own. This project models them:

- **Series grouper** (`src/_11ty/collections/series.js`). The posts arrive in date order. Each post that names a `series` goes into an insertion-ordered `Map` bucket for that key. `name` and `info` come from the `seriesData` lookup table, `title` and `part` from the first post, and `date` from the most recent post. Only buckets with more than one post are emitted, in the order their series was first met. A key missing from the table makes the function throw.
- **Slug-keyed series index** (`src/_11ty/collections/seriesCollections.js`).
  - Every item with a truthy `data.series` is grouped under `series.slug`. The group's `description` comes from its first item.
  - Each group is then sorted in place by `series.order`.
  - The group gets the first title-sorted series landing page whose template name equals the slug.
- **Display-order sort** (`src/utils/sort.js`). It sorts the caller's array in place. Its comparator answers `1` when the first post's `displayOrder` is larger and `-1` otherwise, never `0`, not even for a post compared with itself. ECMAScript therefore leaves the resulting order implementation-defined, and only the permutation is guaranteed by every engine.

The slug-keyed series index and the display-order sort call `Array.prototype.sort`; the series grouper does not sort (it receives posts already in date order). Module `ArraySort` models it as an in-place stable insertion sort over a JavaScript comparator. ECMAScript has required a stable sort since its 2019 edition. The method is proved to leave `StableSort(old contents)` in the array. For that function the project proves:
- for every comparator, it is a permutation;
- for a total-preorder comparator, the result is ordered;
- for a consistent comparator, it is stable: the elements tied with any element keep their input order.

Modules:
- `Wrappers`: Option and Result.
- `ArraySort`: the engine's array sort.
- `DisplayOrder`: `src/utils/sort.js`.
- `Series`: `src/_11ty/collections/series.js`.
- `SeriesCollections`: `src/_11ty/collections/seriesCollections.js`.

The imperative sources stay imperative.
- `GroupSeries` runs the source's two loops over a map and its key order. It is proved equal to `Expected`, a declarative description of the result.
- `BuildSeriesCollections` sorts the landing pages in an array, gathers the items with a loop, then sorts each group in an array. It is proved equal, slug by slug, to `CollectionFor`.
- `SortByDisplayOrder` sorts the caller's array in place and returns that array.

A series' posts are sometimes described as re-sorted by `part`, but `series.js` never sorts them. The model follows the code: posts stay in scan order, and `GroupFields` proves that order.

## Model

| member | source | states |
|---|---|---|
| ArraySort.Insert | src/_11ty/collections/seriesCollections.js:31-33 | one step of the engine sort yields exactly one element more than the sorted prefix it extends; where the new element lands is `ArraySort.InsertAt` |
| ArraySort.InsertAt | src/_11ty/collections/seriesCollections.js:31-33 | when every element from position `j` on is ranked strictly after `x` and the one before `j` is not, the new element lands at `j` and the others keep their order |
| ArraySort.StableSort | src/utils/sort.js:8 | the order the engine sort leaves, one length-preserving insertion per element; permutation, order and stability are the lemmas below |
| ArraySort.SortInPlace | src/utils/sort.js:8 | the array, sorted in place, holds StableSort of its old contents |
| ArraySort.InsertNext | src/utils/sort.js:8 | one insertion pass moves `a[i]` into the sorted prefix and leaves the rest of the array alone |
| ArraySort.StableSortPermutes | src/utils/sort.js:8 | sorting with any comparator neither loses nor duplicates an element (multiset equality) |
| ArraySort.StableSortKeepsMembers | src/_11ty/collections/seriesCollections.js:9-13 | sorting (here, the landing pages) neither adds nor drops an element |
| ArraySort.StableSortSorted | src/_11ty/collections/seriesCollections.js:31-33 | with a total-preorder comparator no element is ranked after a later one |
| ArraySort.StableSortKeepsTies | src/_11ty/collections/seriesCollections.js:31-33 | with a consistent comparator the elements tied with any `e` keep their input order (stability) |
| DisplayOrder.Compare | src/utils/sort.js:9 | the comparator answers 1 or -1, never 0, and 1 exactly when the first displayOrder is larger |
| DisplayOrder.CompareOnTies | src/utils/sort.js:9 | on equal keys both argument orders answer -1, so the comparator is inconsistent on ties |
| DisplayOrder.CompareNeverConsistent | src/utils/sort.js:9 | a post compared with itself yields -1, so the comparator is never a consistent comparator |
| DisplayOrder.CompareAntisymmetric | src/utils/sort.js:9 | on distinct keys swapping the arguments negates the answer |
| DisplayOrder.CompareIsTotalPreorder | src/utils/sort.js:9 | "not ranked after" under the comparator is total and transitive |
| DisplayOrder.SortByDisplayOrder | src/utils/sort.js:7-10 | returns the same array, sorted in place. The result is a permutation of the input and ascending by displayOrder. It is strictly ascending when the keys are distinct. Empty and one-element arrays are unchanged, and so is an already sorted array with distinct keys. |
| DisplayOrder.DistinctKeysPermutation | src/utils/sort.js:8 | distinct keys stay distinct under any permutation |
| DisplayOrder.SortedPermutationUnique | src/utils/sort.js:8-9 | with distinct keys there is one ascending arrangement, so sorting twice equals sorting once |
| DisplayOrder.ShortPermutationUnchanged | src/utils/sort.js:8 | an empty or one-element collection has only one arrangement |
| Series.GroupSeries | src/_11ty/collections/series.js:9-73 | the two loops return exactly `Expected`: the groups of more than one post in first-encounter order, or a failure naming the first series missing from the table |
| Series.ScanPost | src/_11ty/collections/series.js:17-54 | one turn of the scan either keeps the map equal to the buckets of the posts scanned so far, or reports the failure the whole call ends in |
| Series.FilePost | src/_11ty/collections/series.js:26-53 | for a post whose series the table has: the bucket is created on first sight (key appended to the key order), the summary is pushed, and the date is overwritten |
| Series.Normalize | src/_11ty/collections/series.js:58-69 | the second loop returns exactly the successful `Expected` result, given the map built by the scan |
| Series.FirstIndex | src/_11ty/collections/series.js:28-37 | the first post naming a series (the one whose title and part the bucket keeps) |
| Series.LastIndex | src/_11ty/collections/series.js:53 | the last post naming a series (the one whose date the bucket ends with) |
| Series.FirstUnknown | src/_11ty/collections/series.js:30 | the first post whose series the lookup table lacks |
| Series.BucketAfter | src/_11ty/collections/series.js:28-53 | scanning a post creates its bucket on first sight, appends its summary and overwrites the date, and leaves other buckets alone |
| Series.KeyOrderMembers | src/_11ty/collections/series.js:14 | a key is in the map's key order exactly when some post names it |
| Series.KeyOrderFirstEncounter | src/_11ty/collections/series.js:28-37 | the map's keys are ordered by their first post, so none repeats |
| Series.PostsOfMembers | src/_11ty/collections/series.js:22-50 | a bucket's list holds exactly the summaries of the posts naming that series; a post without a series is in no list |
| Series.EmitMembers | src/_11ty/collections/series.js:58-69 | a group is emitted for a key exactly when its bucket has more than one post |
| Series.EmitOrder | src/_11ty/collections/series.js:61-67 | emitting keeps the order of the map's keys |
| Series.GroupsHaveSeveralPosts | src/_11ty/collections/series.js:65-67 | every emitted group has more than one post |
| Series.GroupIffSeveralPosts | src/_11ty/collections/series.js:65-67 | a series is emitted exactly when it is in the table and more than one post names it |
| Series.SingletonSeriesAbsent | src/_11ty/collections/series.js:65-67 | a series named by a single post is absent from the output |
| Series.GroupFields | src/_11ty/collections/series.js:28-67 | for a group emitted through `GroupOf`, the slug is the series key. `name` and `info` come from the table. `title` and `part` come from the first post, and `date` from the last. `posts` are the series' posts in scan order, not re-sorted. |
| Series.GroupEntriesSummarisePosts | src/_11ty/collections/series.js:43-50 | every entry (`Summary`) of an emitted group has the series' display name from the table. Its title, info, date, url and part are those of one post naming that series. |
| Series.GroupDateIsLatest | src/_11ty/collections/series.js:11-53 | for date-ascending input a group's date is the latest date among its posts |
| Series.GroupsInFirstEncounterOrder | src/_11ty/collections/series.js:61-67 | groups come out in first-encounter order of their series, and no slug appears twice |
| Series.UnknownSeriesFails | src/_11ty/collections/series.js:28-44 | the call fails exactly when some post names a series missing from the table, and it reports the first such series |
| SeriesCollections.BuildSeriesCollections | src/_11ty/collections/seriesCollections.js:7-41 | the key set is exactly the slugs of the series-tagged items, with no size filter, and each record is `CollectionFor` that slug |
| SeriesCollections.ByOrder | src/_11ty/collections/seriesCollections.js:31-33 | the comparator's sign is the comparison of the two `series.order` values: negative, zero or positive exactly when the first is smaller, equal or larger |
| SeriesCollections.GatherAll | src/_11ty/collections/seriesCollections.js:16-27 | after the `forEach` each slug's list holds its items in collection order, with the first item's description |
| SeriesCollections.GatherItem | src/_11ty/collections/seriesCollections.js:17-26 | one callback files an item under its slug, creating the record on first sight, and skips items without a series |
| SeriesCollections.FinishCollection | src/_11ty/collections/seriesCollections.js:30-39 | one turn of the second loop sorts the slug's list by `series.order` and attaches its landing page |
| SeriesCollections.SortAndAttach | src/_11ty/collections/seriesCollections.js:30-39 | the loop over the entries keeps the key set and finishes every record into `CollectionFor` its slug |
| SeriesCollections.FindByName | src/_11ty/collections/seriesCollections.js:36-38 | `find` answers None exactly when no page has the name, and otherwise the first page that has it |
| SeriesCollections.FirstWithSlug | src/_11ty/collections/seriesCollections.js:19-23 | the first item carrying a slug |
| SeriesCollections.WithSlugCounts | src/_11ty/collections/seriesCollections.js:17-25 | a slug's list holds each item carrying the slug as often as the collection does, and nothing else |
| SeriesCollections.PostsArePermutation | src/_11ty/collections/seriesCollections.js:25-33 | after sorting, a slug's posts are a permutation of exactly the items carrying it |
| SeriesCollections.ByOrderConsistent | src/_11ty/collections/seriesCollections.js:32 | the `order` difference is a consistent comparator |
| SeriesCollections.PostsSortedByOrder | src/_11ty/collections/seriesCollections.js:30-33 | each slug's posts are non-decreasing in `series.order` |
| SeriesCollections.TiesKeepCollectionOrder | src/_11ty/collections/seriesCollections.js:30-33 | posts with equal `series.order` keep their collection order |
| SeriesCollections.DescriptionFromFirstItem | src/_11ty/collections/seriesCollections.js:19-23 | the description is that of the first item with the slug; later items do not overwrite it |
| SeriesCollections.ByTitlePreorder | src/_11ty/collections/seriesCollections.js:11-13 | when `localeCompare` is a total preorder on strings, the title comparator `ByTitle` is one on pages |
| SeriesCollections.FoundFirst | src/_11ty/collections/seriesCollections.js:36-38 | in a title-sorted list, the page `find` returns is ranked no later than any page of the same name |
| SeriesCollections.LandingPageIsFirstByTitle | src/_11ty/collections/seriesCollections.js:9-38 | the attached page is absent exactly when no landing page is named after the slug. Otherwise it is such a page, and no page of that name has an earlier title under `ByTitle`. |

## Left out

- The framework's queries (`getSortedByDate`, `getFilteredByGlob`, `getAll`) and `post.url` / `template.parsed.name` are not modelled. Their results are the input sequences and record fields.
- Date order of the posts is not required by `Series.GroupSeries`. Only `Series.GroupDateIsLatest` assumes it, as its precondition.
- Reading `seriesData.json` from disk is not modelled; the table is a map parameter.
- `localeCompare` is locale-dependent collation. It is a function parameter, and the lemmas that need it to be a total order say so in their preconditions.
- `Number()` coercion of missing or non-numeric `displayOrder`, NaN comparisons, and non-integer `series.order` are not modelled. All keys are integers.
- Which of two posts with equal `displayOrder` comes first is left open. The comparator answers -1 both ways on ties, and the model's insertion sort picks one order, but no contract states it.
- DisplayOrder.SortByDisplayOrder: the comparator answers -1 for a post compared with itself (`DisplayOrder.CompareNeverConsistent`). ECMAScript requires a consistent comparator to treat every value as equal to itself, so this comparator is never consistent, and the order ECMAScript gives is implementation-defined for every input. Only the `r == collection` clause and the permutation clause bind every engine. The `Ascending`, strictly-ascending and unchanged-when-sorted clauses are properties of the stable insertion sort that stands in for the engine's sort. A real engine also has them when it never compares an element with itself.
- Dates are one `int` field `date`. `getSortedByDate` orders by the page's date, while the buckets store `post.data.date`. The model treats the two as the same value. `Series.DateAscending`, and so `Series.GroupDateIsLatest`, relies on that.
- The engine's actual sort algorithm is not modelled. It is represented by a stable insertion sort, which is the one order ECMAScript's stability requirement allows for a consistent comparator.
- JavaScript property-key coercion, prototype keys (a series named `constructor`) and `undefined` optional fields are not modelled. Series keys and slugs are strings, and every field has a value.
- The `posts` arrays of seriesCollections.js are sequences inside the records. Each one is copied into a fresh array to be sorted in place, because nothing else refers to it.
- The result object is a map, so `Object.entries` iteration order is not modelled. The result does not depend on it.
- The bucket records series.js mutates in place are values. A bucket is reached only through the map, so no aliasing is lost.
- Browser scripts, the gulp image and copy tasks, and the PostCSS configuration are not modelled. They are DOM, I/O and configuration with no collection logic.
