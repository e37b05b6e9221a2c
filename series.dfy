/**
 * The article-series collection (src/_11ty/collections/series.js).
 *
 * Posts arrive in date order. One pass buckets every post that names a
 * series into an insertion-ordered map keyed by that series; a second pass
 * emits, in first-encounter order, the buckets holding more than one post.
 * A series missing from the lookup table makes the source throw.
 *
 * The JavaScript `Map` is a Dafny map plus the sequence of its keys in
 * insertion order; the bucket records it holds are values, updated by
 * replacing the map entry (nothing else refers to a bucket).
 */
module Series {
  import opened Wrappers

  /** The front matter series.js reads from a post, and the post's url. */
  datatype Post = Post(url: string, series: Option<string>, info: string, date: int, title: string, part: int)

  /** An entry of the series lookup table (seriesData.json). */
  datatype SeriesInfo = SeriesInfo(name: string, info: string)

  /** The summary of a post pushed into its bucket. */
  datatype Entry = Entry(name: string, title: string, info: string, date: int, url: string, part: int)

  /** The record kept in the map for one series. */
  datatype Bucket = Bucket(name: string, posts: seq<Entry>, info: string, part: int, title: string, date: int)

  /** One emitted series. */
  datatype Group = Group(slug: string, title: string, name: string, posts: seq<Entry>, part: int, info: string, date: int)

  /** The record pushed for a post: the series' display name from the table, everything else from the post. */
  function Summary(p: Post, name: string): Entry
  {
    Entry(name, p.title, p.info, p.date, p.url, p.part)
  }

  /** The record emitted for a bucket: its key as the slug, and the bucket's fields unchanged. */
  function GroupOf(slug: string, b: Bucket): Group
  {
    Group(slug, b.title, b.name, b.posts, b.part, b.info, b.date)
  }

  predicate Tagged(p: Post, key: string)
  {
    p.series == Some(key)
  }

  /** The post names no series, or one the lookup table has. */
  predicate Known(p: Post, table: map<string, SeriesInfo>)
  {
    p.series.Some? ==> p.series.value in table
  }

  ghost predicate AllKnown(s: seq<Post>, table: map<string, SeriesInfo>)
  {
    forall i :: 0 <= i < |s| ==> Known(s[i], table)
  }

  ghost predicate Occurs(s: seq<Post>, key: string)
  {
    exists i :: 0 <= i < |s| && Tagged(s[i], key)
  }

  /** Posts in non-decreasing date order, as the framework's date-sorted collection supplies them. */
  ghost predicate DateAscending(s: seq<Post>)
  {
    forall i, j :: 0 <= i < j < |s| ==> s[i].date <= s[j].date
  }

  // ---------------------------------------------------------------------------
  // The specification: what each bucket holds, defined on the whole input.

  /** The position of the first post of a series. */
  ghost function FirstIndex(s: seq<Post>, key: string): (i: nat)
    requires Occurs(s, key)
    ensures i < |s| && Tagged(s[i], key)
    ensures forall j :: 0 <= j < i ==> !Tagged(s[j], key)
    decreases |s|
  {
    var n := |s| - 1;
    if Occurs(s[..n], key) then FirstIndex(s[..n], key)
    else
      assert forall j :: 0 <= j < n ==> s[..n][j] == s[j];
      n
  }

  /** The position of the last post of a series. */
  ghost function LastIndex(s: seq<Post>, key: string): (i: nat)
    requires Occurs(s, key)
    ensures i < |s| && Tagged(s[i], key)
    ensures forall j :: i < j < |s| ==> !Tagged(s[j], key)
    decreases |s|
  {
    var n := |s| - 1;
    if Tagged(s[n], key) then n
    else
      assert Occurs(s[..n], key) by {
        var i :| 0 <= i < |s| && Tagged(s[i], key);
        assert s[..n][i] == s[i];
      }
      LastIndex(s[..n], key)
  }

  /** The position of the first post whose series the lookup table lacks. */
  ghost function FirstUnknown(s: seq<Post>, table: map<string, SeriesInfo>): (i: nat)
    requires !AllKnown(s, table)
    ensures i < |s| && !Known(s[i], table)
    ensures forall j :: 0 <= j < i ==> Known(s[j], table)
    decreases |s|
  {
    var n := |s| - 1;
    if !AllKnown(s[..n], table) then FirstUnknown(s[..n], table)
    else
      assert forall j :: 0 <= j < n ==> s[..n][j] == s[j];
      n
  }

  /** Summaries of the posts of one series, in scan order. */
  function PostsOf(s: seq<Post>, key: string, name: string): seq<Entry>
  {
    if s == [] then []
    else PostsOf(s[..|s| - 1], key, name) + (if Tagged(s[|s| - 1], key) then [Summary(s[|s| - 1], name)] else [])
  }

  /** Series keys in the order their first post appears. */
  function KeyOrder(s: seq<Post>): seq<string>
  {
    if s == [] then []
    else
      var keys := KeyOrder(s[..|s| - 1]);
      match s[|s| - 1].series
      case None => keys
      case Some(k) => if k in keys then keys else keys + [k]
  }

  /** The bucket of a series after the whole scan. */
  ghost function BucketOf(s: seq<Post>, key: string, table: map<string, SeriesInfo>): Bucket
    requires Occurs(s, key) && key in table
  {
    var first := s[FirstIndex(s, key)];
    Bucket(table[key].name, PostsOf(s, key, table[key].name), table[key].info,
           first.part, first.title, s[LastIndex(s, key)].date)
  }

  /** The groups emitted for `keys`, in that order, keeping those with more than one post. */
  ghost function Emit(keys: seq<string>, s: seq<Post>, table: map<string, SeriesInfo>): seq<Group>
    requires forall k :: k in keys ==> Occurs(s, k) && k in table
  {
    if keys == [] then []
    else
      var rest := Emit(keys[..|keys| - 1], s, table);
      var slug := keys[|keys| - 1];
      var b := BucketOf(s, slug, table);
      if |b.posts| > 1 then rest + [GroupOf(slug, b)] else rest
  }

  /** What series.js returns or throws for the date-ordered posts `s` and the lookup table. */
  ghost function Expected(s: seq<Post>, table: map<string, SeriesInfo>): Result<seq<Group>, string>
  {
    if AllKnown(s, table) then
      KeyOrderMembers(s);
      KnownKeys(s, table);
      Success(Emit(KeyOrder(s), s, table))
    else
      Failure(s[FirstUnknown(s, table)].series.value)
  }

  // ---------------------------------------------------------------------------
  // The source's two loops.

  /** The state of the map after scanning the posts `scanned`. */
  ghost predicate Scanned(scanned: seq<Post>, table: map<string, SeriesInfo>,
                          mapping: map<string, Bucket>, order: seq<string>)
  {
    && AllKnown(scanned, table)
    && order == KeyOrder(scanned)
    && (forall k :: k in mapping <==> Occurs(scanned, k))
    && (forall k :: k in mapping ==> k in table && mapping[k] == BucketOf(scanned, k, table))
  }

  /**
   * Groups the posts by series. Failure(key) stands for the TypeError thrown
   * when `seriesData[key]` is undefined.
   */
  method GroupSeries(posts: seq<Post>, seriesData: map<string, SeriesInfo>) returns (r: Result<seq<Group>, string>)
    ensures r == Expected(posts, seriesData)
  {
    var mapping: map<string, Bucket> := map[];
    var order: seq<string> := [];
    var i := 0;
    while i < |posts|
      invariant 0 <= i <= |posts|
      invariant Scanned(posts[..i], seriesData, mapping, order)
    {
      var ok;
      ok, mapping, order := ScanPost(posts, i, seriesData, mapping, order);
      if !ok {
        return Failure(posts[i].series.value);
      }
      i := i + 1;
    }
    assert posts[..i] == posts;
    var normalized := Normalize(posts, seriesData, mapping, order);
    return Success(normalized);
  }

  /** The second loop: a group for every bucket holding more than one post, in key order. */
  method Normalize(posts: seq<Post>, seriesData: map<string, SeriesInfo>,
                   mapping: map<string, Bucket>, order: seq<string>)
    returns (normalized: seq<Group>)
    requires Scanned(posts, seriesData, mapping, order)
    ensures AllKnown(posts, seriesData) && Expected(posts, seriesData) == Success(normalized)
  {
    KeyOrderMembers(posts);
    normalized := [];
    var j := 0;
    while j < |order|
      invariant 0 <= j <= |order|
      invariant normalized == Emit(order[..j], posts, seriesData)
    {
      var slug := order[j];
      var b := mapping[slug];
      if |b.posts| > 1 {
        normalized := normalized + [GroupOf(slug, b)];
      }
      assert order[..j + 1][..j] == order[..j];
      j := j + 1;
    }
    assert order[..j] == order;
  }

  /**
   * One turn of the scan loop: files `posts[i]` under its series, creating the
   * bucket on first sight; `ok` is false when the source would throw instead.
   */
  method ScanPost(posts: seq<Post>, i: nat, seriesData: map<string, SeriesInfo>,
                  mapping: map<string, Bucket>, order: seq<string>)
    returns (ok: bool, mapping': map<string, Bucket>, order': seq<string>)
    requires i < |posts|
    requires Scanned(posts[..i], seriesData, mapping, order)
    ensures ok ==> Scanned(posts[..i + 1], seriesData, mapping', order')
    ensures !ok ==> posts[i].series.Some? && Expected(posts, seriesData) == Failure(posts[i].series.value)
  {
    var post := posts[i];
    if !Known(post, seriesData) {
      FirstUnknownAt(posts, seriesData, i);
      return false, mapping, order;
    }
    mapping', order' := FilePost(post, seriesData, mapping, order);
    ScannedAfter(posts, i, seriesData, mapping, order, mapping', order');
    return true, mapping', order';
  }

  /**
   * The map updates for a post whose series the table has: create the bucket
   * on first sight, push the post's summary, overwrite the date.
   */
  method FilePost(post: Post, seriesData: map<string, SeriesInfo>, mapping: map<string, Bucket>, order: seq<string>)
    returns (mapping': map<string, Bucket>, order': seq<string>)
    requires Known(post, seriesData)
    ensures post.series.None? ==> mapping' == mapping && order' == order
    ensures post.series.Some? ==> Filed(post, seriesData, mapping, order, mapping', order')
  {
    mapping', order' := mapping, order;
    if post.series.Some? {
      var series := post.series.value;
      if series !in mapping' {
        mapping' := mapping'[series := Bucket(seriesData[series].name, [], seriesData[series].info,
                                              post.part, post.title, post.date)];
        order' := order' + [series];
      }
      var existing := mapping'[series];
      existing := existing.(posts := existing.posts + [Summary(post, seriesData[series].name)]);
      existing := existing.(date := post.date);
      mapping' := mapping'[series := existing];
    }
  }

  /** The map and key order after filing `post` under its series `post.series.value`. */
  ghost predicate Filed(post: Post, seriesData: map<string, SeriesInfo>, mapping: map<string, Bucket>, order: seq<string>,
                        mapping': map<string, Bucket>, order': seq<string>)
    requires post.series.Some? && post.series.value in seriesData
  {
    var k := post.series.value;
    var name := seriesData[k].name;
    var b := if k in mapping then mapping[k]
             else Bucket(name, [], seriesData[k].info, post.part, post.title, post.date);
    && mapping' == mapping[k := b.(posts := b.posts + [Summary(post, name)], date := post.date)]
    && order' == (if k in mapping then order else order + [k])
  }

  /** Filing `posts[i]` takes the map from the buckets of `posts[..i]` to those of `posts[..i + 1]`. */
  lemma ScannedAfter(posts: seq<Post>, i: nat, seriesData: map<string, SeriesInfo>,
                     mapping: map<string, Bucket>, order: seq<string>,
                     mapping': map<string, Bucket>, order': seq<string>)
    requires i < |posts| && Known(posts[i], seriesData)
    requires Scanned(posts[..i], seriesData, mapping, order)
    requires posts[i].series.None? ==> mapping' == mapping && order' == order
    requires posts[i].series.Some? ==> Filed(posts[i], seriesData, mapping, order, mapping', order')
    ensures Scanned(posts[..i + 1], seriesData, mapping', order')
  {
    KnownAfter(posts, i, seriesData);
    OrderAfter(posts, i, seriesData, mapping, order, mapping', order');
    BucketsAfter(posts, i, seriesData, mapping, order, mapping', order');
  }

  lemma KnownAfter(posts: seq<Post>, i: nat, seriesData: map<string, SeriesInfo>)
    requires i < |posts| && Known(posts[i], seriesData)
    requires AllKnown(posts[..i], seriesData)
    ensures AllKnown(posts[..i + 1], seriesData)
  {
    assert forall j :: 0 <= j < i ==> posts[..i + 1][j] == posts[..i][j];
  }

  lemma OrderAfter(posts: seq<Post>, i: nat, seriesData: map<string, SeriesInfo>,
                   mapping: map<string, Bucket>, order: seq<string>,
                   mapping': map<string, Bucket>, order': seq<string>)
    requires i < |posts| && Known(posts[i], seriesData)
    requires Scanned(posts[..i], seriesData, mapping, order)
    requires posts[i].series.None? ==> mapping' == mapping && order' == order
    requires posts[i].series.Some? ==> Filed(posts[i], seriesData, mapping, order, mapping', order')
    ensures order' == KeyOrder(posts[..i + 1])
  {
    ScanStep(posts, i);
    KeyOrderMembers(posts[..i]);
  }

  lemma BucketsAfter(posts: seq<Post>, i: nat, seriesData: map<string, SeriesInfo>,
                     mapping: map<string, Bucket>, order: seq<string>,
                     mapping': map<string, Bucket>, order': seq<string>)
    requires i < |posts| && Known(posts[i], seriesData)
    requires Scanned(posts[..i], seriesData, mapping, order)
    requires posts[i].series.None? ==> mapping' == mapping && order' == order
    requires posts[i].series.Some? ==> Filed(posts[i], seriesData, mapping, order, mapping', order')
    ensures forall k :: k in mapping' <==> Occurs(posts[..i + 1], k)
    ensures forall k :: k in mapping' ==> k in seriesData && mapping'[k] == BucketOf(posts[..i + 1], k, seriesData)
  {
    ScanStep(posts, i);
    assert forall k :: k in mapping' <==> k in mapping || Tagged(posts[i], k);
    forall k | k in mapping' ensures k in seriesData && mapping'[k] == BucketOf(posts[..i + 1], k, seriesData) {
      FiledBucket(posts, i, seriesData, mapping, order, mapping', order', k);
    }
  }

  lemma FiledBucket(posts: seq<Post>, i: nat, seriesData: map<string, SeriesInfo>,
                    mapping: map<string, Bucket>, order: seq<string>,
                    mapping': map<string, Bucket>, order': seq<string>, k: string)
    requires i < |posts| && Known(posts[i], seriesData)
    requires Scanned(posts[..i], seriesData, mapping, order)
    requires posts[i].series.None? ==> mapping' == mapping && order' == order
    requires posts[i].series.Some? ==> Filed(posts[i], seriesData, mapping, order, mapping', order')
    requires k in mapping' && Occurs(posts[..i + 1], k)
    ensures k in seriesData && mapping'[k] == BucketOf(posts[..i + 1], k, seriesData)
  {
    BucketAfter(posts, i, k, seriesData);
  }

  // ---------------------------------------------------------------------------
  // Facts about one step of the scan, used by GroupSeries.

  /** Extending the scanned prefix by one post. */
  lemma ScanStep(posts: seq<Post>, i: nat)
    requires i < |posts|
    ensures posts[..i + 1][..i] == posts[..i]
    ensures posts[..i + 1][i] == posts[i]
    ensures forall k :: Occurs(posts[..i + 1], k) <==> Occurs(posts[..i], k) || Tagged(posts[i], k)
  {
    assert posts[..i + 1][..i] == posts[..i];
    forall k | Occurs(posts[..i + 1], k) ensures Occurs(posts[..i], k) || Tagged(posts[i], k) {
      var j :| 0 <= j < i + 1 && Tagged(posts[..i + 1][j], k);
      if j < i {
        assert posts[..i][j] == posts[..i + 1][j];
      }
    }
    forall k | Occurs(posts[..i], k) ensures Occurs(posts[..i + 1], k) {
      var j :| 0 <= j < i && Tagged(posts[..i][j], k);
      assert posts[..i + 1][j] == posts[..i][j];
    }
    if posts[i].series.Some? {
      assert Tagged(posts[..i + 1][i], posts[i].series.value);
    }
  }

  /** A post whose series the table lacks, after only known ones, is the one the scan fails on. */
  lemma FirstUnknownAt(s: seq<Post>, table: map<string, SeriesInfo>, i: nat)
    requires i < |s|
    requires AllKnown(s[..i], table) && !Known(s[i], table)
    ensures !AllKnown(s, table) && FirstUnknown(s, table) == i
  {
    assert forall j :: 0 <= j < i ==> s[..i][j] == s[j];
  }

  lemma {:induction false} NoPostsWithout(s: seq<Post>, key: string, name: string)
    requires !Occurs(s, key)
    ensures PostsOf(s, key, name) == []
  {
    if s != [] {
      var n := |s| - 1;
      assert forall j :: 0 <= j < n ==> s[..n][j] == s[j];
      NoPostsWithout(s[..n], key, name);
    }
  }

  /** The bucket of one series after scanning `posts[i]`, from its bucket before. */
  lemma BucketAfter(posts: seq<Post>, i: nat, k: string, table: map<string, SeriesInfo>)
    requires i < |posts| && k in table
    requires Occurs(posts[..i + 1], k)
    ensures !Tagged(posts[i], k) ==>
      Occurs(posts[..i], k) && BucketOf(posts[..i + 1], k, table) == BucketOf(posts[..i], k, table)
    ensures Tagged(posts[i], k) && Occurs(posts[..i], k) ==>
      var b := BucketOf(posts[..i], k, table);
      BucketOf(posts[..i + 1], k, table) == b.(posts := b.posts + [Summary(posts[i], table[k].name)], date := posts[i].date)
    ensures Tagged(posts[i], k) && !Occurs(posts[..i], k) ==>
      BucketOf(posts[..i + 1], k, table) ==
        Bucket(table[k].name, [Summary(posts[i], table[k].name)], table[k].info, posts[i].part, posts[i].title, posts[i].date)
  {
    ScanStep(posts, i);
    if Tagged(posts[i], k) && !Occurs(posts[..i], k) {
      NoPostsWithout(posts[..i], k, table[k].name);
    }
  }

  // ---------------------------------------------------------------------------
  // Properties of the specification.

  /** A key is listed exactly when some post names it. */
  lemma {:induction false} KeyOrderMembers(s: seq<Post>)
    ensures forall k :: k in KeyOrder(s) <==> Occurs(s, k)
  {
    if s != [] {
      var n := |s| - 1;
      KeyOrderMembers(s[..n]);
      ScanStep(s, n);
      assert s[..n + 1] == s;
    }
  }

  /** When every named series is in the table, so is every key of the scan. */
  lemma KnownKeys(s: seq<Post>, table: map<string, SeriesInfo>)
    requires AllKnown(s, table)
    ensures forall k :: Occurs(s, k) ==> k in table
  {
    forall k | Occurs(s, k) ensures k in table {
      var i :| 0 <= i < |s| && Tagged(s[i], k);
      assert Known(s[i], table);
    }
  }

  /** Keys are listed in the order of their first post, so no key is listed twice. */
  lemma {:induction false} KeyOrderFirstEncounter(s: seq<Post>)
    ensures forall a, b :: 0 <= a < b < |KeyOrder(s)| ==>
      Occurs(s, KeyOrder(s)[a]) && Occurs(s, KeyOrder(s)[b]) &&
      FirstIndex(s, KeyOrder(s)[a]) < FirstIndex(s, KeyOrder(s)[b])
    ensures forall a, b :: 0 <= a < b < |KeyOrder(s)| ==> KeyOrder(s)[a] != KeyOrder(s)[b]
  {
    KeyOrderMembers(s);
    if s != [] {
      var n := |s| - 1;
      var front := s[..n];
      KeyOrderFirstEncounter(front);
      KeyOrderMembers(front);
      ScanStep(s, n);
      assert s[..n + 1] == s;
      var ks, fs := KeyOrder(s), KeyOrder(front);
      forall k | Occurs(front, k) ensures FirstIndex(s, k) == FirstIndex(front, k) {
      }
      forall a, b | 0 <= a < b < |ks|
        ensures Occurs(s, ks[a]) && Occurs(s, ks[b]) && FirstIndex(s, ks[a]) < FirstIndex(s, ks[b])
      {
        assert ks[a] in ks && ks[b] in ks;
        if b < |fs| {
          assert ks[a] == fs[a] && ks[b] == fs[b];
          assert Occurs(front, fs[a]) && Occurs(front, fs[b]);
        } else {
          var k := s[n].series.value;
          assert ks == fs + [k] && !Occurs(front, k);
          assert ks[a] == fs[a] && Occurs(front, fs[a]);
          assert FirstIndex(s, k) == n;
        }
      }
    } else {
      assert KeyOrder(s) == [];
    }
  }

  /** A post's summary sits in its series' list in scan order: lists of consecutive runs concatenate. */
  lemma {:induction false} PostsOfAppend(s: seq<Post>, u: seq<Post>, key: string, name: string)
    ensures PostsOf(s + u, key, name) == PostsOf(s, key, name) + PostsOf(u, key, name)
    decreases |u|
  {
    if u == [] {
      assert s + u == s;
    } else {
      assert (s + u)[..|s + u| - 1] == s + u[..|u| - 1];
      PostsOfAppend(s, u[..|u| - 1], key, name);
    }
  }

  /** The list of a series holds exactly the summaries of the posts naming it. */
  lemma {:induction false} PostsOfMembers(s: seq<Post>, key: string, name: string)
    ensures forall e :: e in PostsOf(s, key, name) <==>
      exists i :: 0 <= i < |s| && Tagged(s[i], key) && e == Summary(s[i], name)
  {
    if s != [] {
      var n := |s| - 1;
      PostsOfMembers(s[..n], key, name);
      forall e | e in PostsOf(s, key, name)
        ensures exists i :: 0 <= i < |s| && Tagged(s[i], key) && e == Summary(s[i], name)
      {
        if e in PostsOf(s[..n], key, name) {
          var i :| 0 <= i < n && Tagged(s[..n][i], key) && e == Summary(s[..n][i], name);
          assert s[i] == s[..n][i];
        } else {
          assert Tagged(s[n], key) && e == Summary(s[n], name);
        }
      }
      forall e | exists i :: 0 <= i < |s| && Tagged(s[i], key) && e == Summary(s[i], name)
        ensures e in PostsOf(s, key, name)
      {
        var i :| 0 <= i < |s| && Tagged(s[i], key) && e == Summary(s[i], name);
        if i < n {
          assert s[..n][i] == s[i];
        }
      }
    }
  }

  /** What Emit keeps: a group per listed key whose bucket holds more than one post. */
  lemma {:induction false} EmitMembers(keys: seq<string>, s: seq<Post>, table: map<string, SeriesInfo>)
    requires forall k :: k in keys ==> Occurs(s, k) && k in table
    ensures forall g :: g in Emit(keys, s, table) <==>
      g.slug in keys && |BucketOf(s, g.slug, table).posts| > 1 && g == GroupOf(g.slug, BucketOf(s, g.slug, table))
  {
    if keys != [] {
      EmitMembers(keys[..|keys| - 1], s, table);
      assert keys == keys[..|keys| - 1] + [keys[|keys| - 1]];
    }
  }

  /** Emit keeps the relative order of `keys`. */
  lemma {:induction false} EmitOrder(keys: seq<string>, s: seq<Post>, table: map<string, SeriesInfo>)
    requires forall k :: k in keys ==> Occurs(s, k) && k in table
    requires forall a, b :: 0 <= a < b < |keys| ==> FirstIndex(s, keys[a]) < FirstIndex(s, keys[b])
    ensures forall a, b :: 0 <= a < b < |Emit(keys, s, table)| ==>
      var gs := Emit(keys, s, table);
      Occurs(s, gs[a].slug) && Occurs(s, gs[b].slug) && FirstIndex(s, gs[a].slug) < FirstIndex(s, gs[b].slug)
  {
    if keys != [] {
      var n := |keys| - 1;
      var front := keys[..n];
      EmitOrder(front, s, table);
      EmitMembers(front, s, table);
      var gs := Emit(keys, s, table);
      EmitMembers(keys, s, table);
      forall a, b | 0 <= a < b < |gs|
        ensures Occurs(s, gs[a].slug) && Occurs(s, gs[b].slug) && FirstIndex(s, gs[a].slug) < FirstIndex(s, gs[b].slug)
      {
        assert gs[a] in gs && gs[b] in gs;
        if b == |Emit(front, s, table)| {
          assert gs[a] in Emit(front, s, table);
          var c :| 0 <= c < n && front[c] == gs[a].slug;
        }
      }
    }
  }

  /** Every emitted series has more than one post. */
  lemma GroupsHaveSeveralPosts(s: seq<Post>, table: map<string, SeriesInfo>)
    requires Expected(s, table).Success?
    ensures forall g :: g in Expected(s, table).value ==> |g.posts| > 1
  {
    KeyOrderMembers(s);
    KnownKeys(s, table);
    EmitMembers(KeyOrder(s), s, table);
  }

  /**
   * A series is emitted exactly when more than one post names it; a series
   * named by a single post is left out.
   */
  lemma GroupIffSeveralPosts(s: seq<Post>, table: map<string, SeriesInfo>, key: string)
    requires Expected(s, table).Success?
    ensures (exists g :: g in Expected(s, table).value && g.slug == key) <==>
      Occurs(s, key) && key in table && |PostsOf(s, key, table[key].name)| > 1
  {
    KeyOrderMembers(s);
    KnownKeys(s, table);
    EmitMembers(KeyOrder(s), s, table);
    if Occurs(s, key) && |PostsOf(s, key, table[key].name)| > 1 {
      assert GroupOf(key, BucketOf(s, key, table)) in Expected(s, table).value;
    }
  }

  /** A series named by exactly one post is absent from the output. */
  lemma SingletonSeriesAbsent(s: seq<Post>, table: map<string, SeriesInfo>, key: string, i: nat)
    requires Expected(s, table).Success?
    requires i < |s| && Tagged(s[i], key)
    requires forall j :: 0 <= j < |s| && j != i ==> !Tagged(s[j], key)
    ensures forall g :: g in Expected(s, table).value ==> g.slug != key
  {
    assert s == s[..i] + [s[i]] + s[i + 1..];
    var name := table[key].name;
    assert forall j :: 0 <= j < i ==> s[..i][j] == s[j];
    assert forall j :: i < j < |s| ==> s[i + 1..][j - i - 1] == s[j];
    NoPostsWithout(s[..i], key, name);
    NoPostsWithout(s[i + 1..], key, name);
    PostsOfAppend(s[..i] + [s[i]], s[i + 1..], key, name);
    PostsOfAppend(s[..i], [s[i]], key, name);
    assert [s[i]][..0] == [];
    assert |PostsOf(s, key, name)| == 1;
    GroupIffSeveralPosts(s, table, key);
  }

  /**
   * Where each field of an emitted group comes from: `name` and `info` from the
   * lookup table, `title` and `part` from the series' first post, `date` from
   * its last post, and `posts` from every post naming the series, in scan order.
   */
  lemma GroupFields(s: seq<Post>, table: map<string, SeriesInfo>, g: Group)
    requires Expected(s, table).Success? && g in Expected(s, table).value
    ensures Occurs(s, g.slug) && g.slug in table
    ensures g.name == table[g.slug].name && g.info == table[g.slug].info
    ensures g.posts == PostsOf(s, g.slug, g.name)
    ensures exists f :: (0 <= f < |s| && Tagged(s[f], g.slug) && (forall j :: 0 <= j < f ==> !Tagged(s[j], g.slug)) &&
                         g.title == s[f].title && g.part == s[f].part)
    ensures exists l :: (0 <= l < |s| && Tagged(s[l], g.slug) && (forall j :: l < j < |s| ==> !Tagged(s[j], g.slug)) &&
                         g.date == s[l].date)
  {
    KeyOrderMembers(s);
    KnownKeys(s, table);
    EmitMembers(KeyOrder(s), s, table);
    var f := FirstIndex(s, g.slug);
    var l := LastIndex(s, g.slug);
    assert g.title == s[f].title;
    assert g.date == s[l].date;
  }

  /**
   * Each entry of an emitted group is a `Summary` of one of the series' posts:
   * the display name comes from the table, the other fields from that post.
   */
  lemma GroupEntriesSummarisePosts(s: seq<Post>, table: map<string, SeriesInfo>, g: Group)
    requires Expected(s, table).Success? && g in Expected(s, table).value
    ensures g.slug in table
    ensures forall e :: e in g.posts ==>
      e.name == table[g.slug].name &&
      exists i :: 0 <= i < |s| && Tagged(s[i], g.slug) && e.title == s[i].title && e.info == s[i].info &&
                  e.date == s[i].date && e.url == s[i].url && e.part == s[i].part
  {
    GroupFields(s, table, g);
    PostsOfMembers(s, g.slug, g.name);
  }

  /**
   * Under the date-ascending input the framework supplies, a group's date is the
   * latest date among its posts.
   */
  lemma GroupDateIsLatest(s: seq<Post>, table: map<string, SeriesInfo>, g: Group)
    requires DateAscending(s)
    requires Expected(s, table).Success? && g in Expected(s, table).value
    ensures forall e :: e in g.posts ==> e.date <= g.date
    ensures exists e :: e in g.posts && e.date == g.date
  {
    GroupFields(s, table, g);
    PostsOfMembers(s, g.slug, g.name);
    var l :| 0 <= l < |s| && Tagged(s[l], g.slug) && (forall j :: l < j < |s| ==> !Tagged(s[j], g.slug)) &&
      g.date == s[l].date;
    forall e | e in g.posts ensures e.date <= g.date {
      var i :| 0 <= i < |s| && Tagged(s[i], g.slug) && e == Summary(s[i], g.name);
      assert i <= l;
      assert e.date == s[i].date <= s[l].date;
    }
    assert Summary(s[l], g.name) in g.posts;
  }

  /**
   * Groups come out in the order their series was first met, so no series is
   * emitted twice.
   */
  lemma GroupsInFirstEncounterOrder(s: seq<Post>, table: map<string, SeriesInfo>)
    requires Expected(s, table).Success?
    ensures forall a, b :: 0 <= a < b < |Expected(s, table).value| ==>
      var gs := Expected(s, table).value;
      Occurs(s, gs[a].slug) && Occurs(s, gs[b].slug) &&
      FirstIndex(s, gs[a].slug) < FirstIndex(s, gs[b].slug)
    ensures forall a, b :: 0 <= a < b < |Expected(s, table).value| ==>
      Expected(s, table).value[a].slug != Expected(s, table).value[b].slug
  {
    KeyOrderMembers(s);
    KnownKeys(s, table);
    KeyOrderFirstEncounter(s);
    EmitMembers(KeyOrder(s), s, table);
    EmitOrder(KeyOrder(s), s, table);
  }

  /**
   * The scan fails exactly when some post names a series the table lacks, and
   * it reports the series of the first such post.
   */
  lemma UnknownSeriesFails(s: seq<Post>, table: map<string, SeriesInfo>)
    ensures Expected(s, table).Failure? <==>
      exists i :: 0 <= i < |s| && s[i].series.Some? && s[i].series.value !in table
    ensures Expected(s, table).Failure? ==>
      exists i :: 0 <= i < |s| && s[i].series == Some(Expected(s, table).error) &&
        Expected(s, table).error !in table && forall j :: 0 <= j < i ==> Known(s[j], table)
  {
    if !AllKnown(s, table) {
      var i := FirstUnknown(s, table);
      assert s[i].series == Some(Expected(s, table).error);
    } else {
      forall i | 0 <= i < |s| ensures !(s[i].series.Some? && s[i].series.value !in table) {
        assert Known(s[i], table);
      }
    }
  }
}
