/**
 * The engine's `Array.prototype.sort(compareFn)`, which the slug-keyed series
 * index and the display-order sort call. ECMAScript (since its 2019 edition) requires the sort to be
 * stable when the comparator is consistent; it is modelled as an in-place
 * insertion sort that moves an element left past every element the
 * comparator ranks strictly after it (`compareFn(prev, x) > 0`).
 */
module ArraySort {

  /** A JavaScript comparator: negative, zero or positive. */
  type Comparator<!T> = (T, T) -> int

  /** Inserts `x` into `t`, walking left past every element that compares greater than `x`. */
  function Insert<T>(t: seq<T>, x: T, cmp: Comparator<T>): (r: seq<T>)
    ensures |r| == |t| + 1
    decreases |t|
  {
    if t == [] || cmp(t[|t| - 1], x) <= 0 then t + [x]
    else Insert(t[..|t| - 1], x, cmp) + [t[|t| - 1]]
  }

  /** The order the stable sort produces: each element inserted in turn into the sorted prefix. */
  function StableSort<T>(s: seq<T>, cmp: Comparator<T>): (r: seq<T>)
    ensures |r| == |s|
  {
    if s == [] then []
    else Insert(StableSort(s[..|s| - 1], cmp), s[|s| - 1], cmp)
  }

  /**
   * Sorts `a` in place; the array ends up holding StableSort of its old contents.
   * Permutation, order and stability follow from the lemmas below.
   */
  method SortInPlace<T>(a: array<T>, cmp: Comparator<T>)
    modifies a
    ensures a[..] == StableSort(old(a[..]), cmp)
  {
    ghost var s := a[..];
    var i := 0;
    while i < a.Length
      invariant 0 <= i <= a.Length
      invariant a[..i] == StableSort(s[..i], cmp)
      invariant a[i..] == s[i..]
    {
      assert a[i] == s[i] && a[i + 1..] == s[i + 1..];
      InsertNext(a, i, cmp);
      assert s[..i + 1][..i] == s[..i] && s[..i + 1][i] == s[i];
      assert StableSort(s[..i + 1], cmp) == Insert(StableSort(s[..i], cmp), s[i], cmp);
      i := i + 1;
    }
    assert s[..a.Length] == s;
  }

  /** One pass of the sort: moves `a[i]` left into the already sorted `a[..i]`. */
  method InsertNext<T>(a: array<T>, i: nat, cmp: Comparator<T>)
    requires i < a.Length
    modifies a
    ensures a[..i + 1] == Insert(old(a[..i]), old(a[i]), cmp)
    ensures a[i + 1..] == old(a[i + 1..])
  {
    var x := a[i];
    ghost var t := a[..i];
    var j := i;
    while j > 0 && cmp(a[j - 1], x) > 0
      invariant 0 <= j <= i
      invariant forall k :: 0 <= k < j ==> a[k] == t[k]
      invariant forall k :: j < k <= i ==> a[k] == t[k - 1]
      invariant forall k :: i < k < a.Length ==> a[k] == old(a[k])
      invariant forall k :: j <= k < i ==> cmp(t[k], x) > 0
    {
      a[j] := a[j - 1];
      j := j - 1;
    }
    a[j] := x;
    InsertAt(t, j, x, cmp);
    assert a[..i + 1] == t[..j] + [x] + t[j..];
  }

  /**
   * Where Insert puts `x`: after the prefix `t[..j]`, when every element from
   * `j` on compares greater than `x` and `t[j - 1]` (if any) does not.
   */
  lemma {:induction false} InsertAt<T>(t: seq<T>, j: nat, x: T, cmp: Comparator<T>)
    requires j <= |t|
    requires j == 0 || cmp(t[j - 1], x) <= 0
    requires forall k :: j <= k < |t| ==> cmp(t[k], x) > 0
    ensures Insert(t, x, cmp) == t[..j] + [x] + t[j..]
    decreases |t|
  {
    if j < |t| {
      var front := t[..|t| - 1];
      InsertAt(front, j, x, cmp);
      assert front[..j] == t[..j];
      assert t[j..] == front[j..] + [t[|t| - 1]];
    } else {
      assert t[..j] == t;
    }
  }

  // ---------------------------------------------------------------------------
  // What the sort guarantees for every comparator: a permutation.

  lemma {:induction false} InsertPermutes<T>(t: seq<T>, x: T, cmp: Comparator<T>)
    ensures multiset(Insert(t, x, cmp)) == multiset(t) + multiset{x}
    decreases |t|
  {
    if t != [] && cmp(t[|t| - 1], x) > 0 {
      InsertPermutes(t[..|t| - 1], x, cmp);
      assert t == t[..|t| - 1] + [t[|t| - 1]];
    }
  }

  /** The sort neither loses nor duplicates an element. */
  lemma {:induction false} StableSortPermutes<T>(s: seq<T>, cmp: Comparator<T>)
    ensures multiset(StableSort(s, cmp)) == multiset(s)
  {
    if s != [] {
      StableSortPermutes(s[..|s| - 1], cmp);
      InsertPermutes(StableSort(s[..|s| - 1], cmp), s[|s| - 1], cmp);
      assert s == s[..|s| - 1] + [s[|s| - 1]];
    }
  }

  /** Sorting neither adds nor drops an element. */
  lemma StableSortKeepsMembers<T>(s: seq<T>, cmp: Comparator<T>)
    ensures forall q :: q in s <==> q in StableSort(s, cmp)
  {
    StableSortPermutes(s, cmp);
    forall q ensures q in s <==> q in StableSort(s, cmp) {
      assert q in s <==> q in multiset(s);
      assert q in StableSort(s, cmp) <==> q in multiset(StableSort(s, cmp));
    }
  }

  // ---------------------------------------------------------------------------
  // What the comparator must satisfy, and what the sort then guarantees.

  /** `cmp(a, b) <= 0` is total and transitive: the comparator ranks every pair. */
  ghost predicate TotalPreorder<T(!new)>(cmp: Comparator<T>)
  {
    && (forall a, b :: cmp(a, b) > 0 ==> cmp(b, a) <= 0)
    && (forall a, b, c {:trigger cmp(a, b), cmp(b, c), cmp(a, c)} :: cmp(a, b) <= 0 && cmp(b, c) <= 0 ==> cmp(a, c) <= 0)
  }

  /**
   * A consistent comparator in ECMAScript's sense: a total preorder whose
   * "equal" answers (zero) form an equivalence, and whose signs flip when the
   * arguments are swapped.
   */
  ghost predicate Consistent<T(!new)>(cmp: Comparator<T>)
  {
    && TotalPreorder(cmp)
    && (forall a, b :: cmp(a, b) < 0 <==> cmp(b, a) > 0)
    && ZeroIsEquivalence(cmp)
  }

  /** The comparator's "equal" answers are symmetric and transitive. */
  ghost predicate ZeroIsEquivalence<T(!new)>(cmp: Comparator<T>)
  {
    && (forall a, b :: cmp(a, b) == 0 ==> cmp(b, a) == 0)
    && (forall a, b, c {:trigger cmp(a, b), cmp(b, c), cmp(a, c)} :: cmp(a, b) == 0 && cmp(b, c) == 0 ==> cmp(a, c) == 0)
  }

  /** No element is ranked after a later one. */
  predicate SortedBy<T>(s: seq<T>, cmp: Comparator<T>)
  {
    forall i, j :: 0 <= i < j < |s| ==> cmp(s[i], s[j]) <= 0
  }

  /** The elements of `s` the comparator calls equal to `e`, in their order in `s`. */
  function Ties<T>(s: seq<T>, e: T, cmp: Comparator<T>): seq<T>
  {
    if s == [] then []
    else Ties(s[..|s| - 1], e, cmp) + (if cmp(s[|s| - 1], e) == 0 then [s[|s| - 1]] else [])
  }

  /** Every element of `s` is ranked no later than `b`. */
  predicate AllAtMost<T>(s: seq<T>, b: T, cmp: Comparator<T>)
  {
    forall k :: 0 <= k < |s| ==> cmp(s[k], b) <= 0
  }

  lemma {:induction false} InsertAtMost<T>(t: seq<T>, x: T, b: T, cmp: Comparator<T>)
    requires AllAtMost(t, b, cmp) && cmp(x, b) <= 0
    ensures AllAtMost(Insert(t, x, cmp), b, cmp)
    decreases |t|
  {
    if t != [] && cmp(t[|t| - 1], x) > 0 {
      InsertAtMost(t[..|t| - 1], x, b, cmp);
    }
  }

  lemma {:induction false} InsertSorted<T(!new)>(t: seq<T>, x: T, cmp: Comparator<T>)
    requires TotalPreorder(cmp)
    requires SortedBy(t, cmp)
    ensures SortedBy(Insert(t, x, cmp), cmp)
    decreases |t|
  {
    if t == [] || cmp(t[|t| - 1], x) <= 0 {
      var r := t + [x];
      forall i, j | 0 <= i < j < |r| ensures cmp(r[i], r[j]) <= 0 {
        if j == |t| && i < |t| - 1 {
          assert cmp(t[i], t[|t| - 1]) <= 0;
        }
      }
    } else {
      var last := t[|t| - 1];
      var front := t[..|t| - 1];
      InsertSorted(front, x, cmp);
      assert cmp(x, last) <= 0;
      assert AllAtMost(front, last, cmp) by {
        forall k | 0 <= k < |front| ensures cmp(front[k], last) <= 0 {
          assert front[k] == t[k];
        }
      }
      InsertAtMost(front, x, last, cmp);
    }
  }

  /** With a total-preorder comparator the sort's output is in comparator order. */
  lemma {:induction false} StableSortSorted<T(!new)>(s: seq<T>, cmp: Comparator<T>)
    requires TotalPreorder(cmp)
    ensures SortedBy(StableSort(s, cmp), cmp)
  {
    if s != [] {
      StableSortSorted(s[..|s| - 1], cmp);
      InsertSorted(StableSort(s[..|s| - 1], cmp), s[|s| - 1], cmp);
    }
  }

  lemma {:induction false} TiesAppend<T>(s: seq<T>, u: seq<T>, e: T, cmp: Comparator<T>)
    ensures Ties(s + u, e, cmp) == Ties(s, e, cmp) + Ties(u, e, cmp)
    decreases |u|
  {
    if u == [] {
      assert s + u == s;
    } else {
      assert (s + u)[..|s + u| - 1] == s + u[..|u| - 1];
      TiesAppend(s, u[..|u| - 1], e, cmp);
    }
  }

  lemma {:induction false} InsertKeepsTies<T(!new)>(t: seq<T>, x: T, e: T, cmp: Comparator<T>)
    requires ZeroIsEquivalence(cmp)
    ensures Ties(Insert(t, x, cmp), e, cmp) == Ties(t, e, cmp) + Ties([x], e, cmp)
    decreases |t|
  {
    if t == [] || cmp(t[|t| - 1], x) <= 0 {
      TiesAppend(t, [x], e, cmp);
    } else {
      var last := t[|t| - 1];
      var front := t[..|t| - 1];
      InsertKeepsTies(front, x, e, cmp);
      var inserted := Insert(front, x, cmp);
      assert Insert(t, x, cmp) == inserted + [last];
      TiesAppend(inserted, [last], e, cmp);
      TiesOfOne(x, e, cmp);
      TiesOfOne(last, e, cmp);
      assert Ties(t, e, cmp) == Ties(front, e, cmp) + Ties([last], e, cmp);
      if cmp(x, e) == 0 {
        // `last` is ranked strictly after `x`, so it does not tie with `e`
        NotBothTied(x, last, e, cmp);
        assert Ties([last], e, cmp) == [];
        assert Ties(Insert(t, x, cmp), e, cmp) == Ties(front, e, cmp) + [x];
      } else {
        assert Ties([x], e, cmp) == [];
        assert Ties(Insert(t, x, cmp), e, cmp) == Ties(front, e, cmp) + Ties([last], e, cmp);
      }
    }
  }

  lemma TiesOfOne<T>(x: T, e: T, cmp: Comparator<T>)
    ensures Ties([x], e, cmp) == if cmp(x, e) == 0 then [x] else []
  {
    assert [x][..0] == [];
  }

  /** An element ranked strictly after `x` cannot tie with anything `x` ties with. */
  lemma NotBothTied<T(!new)>(x: T, last: T, e: T, cmp: Comparator<T>)
    requires ZeroIsEquivalence(cmp)
    requires cmp(last, x) > 0
    ensures !(cmp(x, e) == 0 && cmp(last, e) == 0)
  {
    assert cmp(x, e) == 0 ==> cmp(e, x) == 0;
  }

  /**
   * Stability: for every element `e`, the elements tied with `e` keep the
   * relative order they had in the input.
   */
  lemma {:induction false} StableSortKeepsTies<T(!new)>(s: seq<T>, e: T, cmp: Comparator<T>)
    requires Consistent(cmp)
    ensures Ties(StableSort(s, cmp), e, cmp) == Ties(s, e, cmp)
  {
    if s != [] {
      var front := s[..|s| - 1];
      StableSortKeepsTies(front, e, cmp);
      InsertKeepsTies(StableSort(front, cmp), s[|s| - 1], e, cmp);
      assert [s[|s| - 1]][..0] == [];
    }
  }
}
