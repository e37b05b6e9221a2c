/**
 * The blog listing's sort (src/utils/sort.js): the collection is sorted in
 * place by each post's `displayOrder`, with a comparator that answers 1 when
 * the first post's number is larger and -1 otherwise, never 0.
 */
module DisplayOrder {
  import ArraySort

  /** A blog post; only the field the sort reads matters here. */
  datatype Post = Post(url: string, displayOrder: int)

  /** The source's comparator: 1 when `a` ranks after `b`, -1 in every other case. */
  function Compare(a: Post, b: Post): (r: int)
    ensures r == 1 || r == -1
    ensures r == 1 <==> a.displayOrder > b.displayOrder
  {
    if a.displayOrder > b.displayOrder then 1 else -1
  }

  /** Non-decreasing by displayOrder. */
  predicate Ascending(s: seq<Post>)
  {
    forall i, j :: 0 <= i < j < |s| ==> s[i].displayOrder <= s[j].displayOrder
  }

  /** Strictly increasing by displayOrder. */
  predicate StrictlyAscending(s: seq<Post>)
  {
    forall i, j :: 0 <= i < j < |s| ==> s[i].displayOrder < s[j].displayOrder
  }

  /** No two positions share a displayOrder. */
  predicate DistinctKeys(s: seq<Post>)
  {
    forall i, j :: 0 <= i < j < |s| ==> s[i].displayOrder != s[j].displayOrder
  }

  /**
   * Sorts the caller's array in place and hands back that same array. The
   * comparator answers -1 for a post compared with itself, so it is never a
   * consistent comparator (`CompareNeverConsistent`): only the identity of
   * the array and the permutation hold for every engine, while the ordering
   * clauses describe the stable insertion sort that stands in for the
   * engine's sort.
   */
  method SortByDisplayOrder(collection: array<Post>) returns (r: array<Post>)
    modifies collection
    ensures r == collection
    ensures multiset(r[..]) == multiset(old(collection[..]))
    ensures Ascending(r[..])
    ensures DistinctKeys(old(collection[..])) ==> StrictlyAscending(r[..])
    ensures collection.Length <= 1 ==> r[..] == old(collection[..])
    ensures DistinctKeys(old(collection[..])) && Ascending(old(collection[..])) ==> r[..] == old(collection[..])
  {
    ghost var s := collection[..];
    ArraySort.SortInPlace(collection, Compare);
    ArraySort.StableSortPermutes(s, Compare);
    CompareIsTotalPreorder();
    ArraySort.StableSortSorted(s, Compare);
    SortedByCompareIsAscending(collection[..]);
    if DistinctKeys(s) {
      DistinctKeysPermutation(s, collection[..]);
      DistinctAscendingIsStrict(collection[..]);
      if Ascending(s) {
        SortedPermutationUnique(s, collection[..]);
      }
    }
    if collection.Length <= 1 {
      ShortPermutationUnchanged(s, collection[..]);
    }
    r := collection;
  }

  // ---------------------------------------------------------------------------
  // The comparator.

  /** On equal keys both argument orders answer -1: the comparator is inconsistent on ties. */
  lemma CompareOnTies(a: Post, b: Post)
    requires a.displayOrder == b.displayOrder
    ensures Compare(a, b) == -1 && Compare(b, a) == -1
  {
  }

  /**
   * A post compared with itself yields -1, so the comparator fails the sign
   * antisymmetry of a consistent comparator.
   */
  lemma CompareNeverConsistent(p: Post)
    ensures Compare(p, p) == -1
    ensures !ArraySort.Consistent(Compare)
  {
    assert Compare(p, p) < 0 && !(Compare(p, p) > 0);
  }

  /** On distinct keys the comparator is antisymmetric. */
  lemma CompareAntisymmetric(a: Post, b: Post)
    requires a.displayOrder != b.displayOrder
    ensures Compare(a, b) == -Compare(b, a)
  {
  }

  /** `Compare(a, b) <= 0` means `a.displayOrder <= b.displayOrder`, which is total and transitive. */
  lemma CompareIsTotalPreorder()
    ensures ArraySort.TotalPreorder(Compare)
  {
  }

  lemma SortedByCompareIsAscending(s: seq<Post>)
    ensures ArraySort.SortedBy(s, Compare) <==> Ascending(s)
  {
  }

  // ---------------------------------------------------------------------------
  // Consequences of sorting a permutation.

  lemma DistinctAscendingIsStrict(s: seq<Post>)
    requires DistinctKeys(s) && Ascending(s)
    ensures StrictlyAscending(s)
  {
  }

  /** Distinct keys survive a permutation. */
  lemma DistinctKeysPermutation(s: seq<Post>, t: seq<Post>)
    requires DistinctKeys(s)
    requires multiset(s) == multiset(t)
    ensures DistinctKeys(t)
  {
    DistinctKeysAtMostOnce(s);
    forall i, j | 0 <= i < j < |t| ensures t[i].displayOrder != t[j].displayOrder {
      if t[i] == t[j] {
        TwiceInSeq(t, i, j);
      } else {
        assert t[i] in multiset(s) && t[j] in multiset(s);
      }
    }
  }

  /** With distinct keys no post occurs twice. */
  lemma {:induction false} DistinctKeysAtMostOnce(s: seq<Post>)
    requires DistinctKeys(s)
    ensures forall x :: multiset(s)[x] <= 1
  {
    if s != [] {
      DistinctKeysAtMostOnce(s[1..]);
      assert s == [s[0]] + s[1..];
      assert s[0] !in s[1..];
    }
  }

  lemma TwiceInSeq(t: seq<Post>, i: nat, j: nat)
    requires i < j < |t| && t[i] == t[j]
    ensures multiset(t)[t[i]] >= 2
  {
    assert t == t[..j] + [t[j]] + t[j + 1..];
    assert t[i] in multiset(t[..j]);
  }

  /**
   * With pairwise distinct keys there is only one ascending arrangement of a
   * collection, so sorting an already sorted collection leaves it unchanged
   * and sorting twice is the same as sorting once.
   */
  lemma {:induction false} SortedPermutationUnique(s: seq<Post>, t: seq<Post>)
    requires DistinctKeys(s)
    requires Ascending(s) && Ascending(t)
    requires multiset(s) == multiset(t)
    ensures s == t
    decreases |s|
  {
    assert |s| == |multiset(s)| == |t|;
    if s != [] {
      LeastComesFirst(s, t);
      TailPermutation(s, t);
      SortedPermutationUnique(s[1..], t[1..]);
      assert s == [s[0]] + s[1..] && t == [t[0]] + t[1..];
    }
  }

  /** Both arrangements start with the one post of least displayOrder. */
  lemma LeastComesFirst(s: seq<Post>, t: seq<Post>)
    requires DistinctKeys(s)
    requires Ascending(s) && Ascending(t)
    requires multiset(s) == multiset(t)
    requires s != [] && t != []
    ensures s[0] == t[0]
  {
    assert t[0] in multiset(s) && s[0] in multiset(t);
    var k :| 0 <= k < |s| && s[k] == t[0];
    var m :| 0 <= m < |t| && t[m] == s[0];
    assert s[0].displayOrder <= s[k].displayOrder <= t[m].displayOrder;
  }

  lemma TailPermutation(s: seq<Post>, t: seq<Post>)
    requires multiset(s) == multiset(t)
    requires s != [] && t != [] && s[0] == t[0]
    ensures multiset(s[1..]) == multiset(t[1..])
  {
    assert s == [s[0]] + s[1..] && t == [t[0]] + t[1..];
    assert multiset(s) == multiset{s[0]} + multiset(s[1..]);
    assert multiset(t) == multiset{s[0]} + multiset(t[1..]);
    assert multiset(s[1..]) == multiset(s) - multiset{s[0]};
    assert multiset(t[1..]) == multiset(t) - multiset{s[0]};
  }

  /** Empty and one-element collections have only one arrangement. */
  lemma ShortPermutationUnchanged(s: seq<Post>, t: seq<Post>)
    requires |s| <= 1
    requires multiset(s) == multiset(t)
    ensures s == t
  {
    assert |t| == |multiset(t)| == |s|;
    if |s| == 1 {
      assert t[0] in multiset(s);
    }
  }
}
