/**
 * Insertion sort as a function over any element type with an integer key:
 * the specification of insertion_sort in src/sorting.c and in the root
 * sorting_test.c. Stability is proved on this function by sorting
 * (value, input position) pairs by value.
 */
module InsertionSortSpec {
  import opened Sequences

  /** The key of a plain integer: the integer itself. */
  function Identity(x: int): int { x }

  /** The key of a (value, input position) pair: the value. */
  function Value(p: (int, int)): int { p.0 }

  ghost predicate SortedBy<T>(s: seq<T>, key: T -> int) {
    forall i, j :: 0 <= i < j < |s| ==> key(s[i]) <= key(s[j])
  }

  /**
   * One outer step of insertion sort: walk back from the end of `s` past
   * every element whose key is strictly greater than that of `x`, and put `x`
   * right after the first one that is not.
   */
  function Insert<T>(s: seq<T>, x: T, key: T -> int): (r: seq<T>)
    ensures |r| == |s| + 1
    decreases |s|
  {
    if |s| > 0 && key(s[|s| - 1]) > key(x) then
      Insert(s[..|s| - 1], x, key) + [s[|s| - 1]]
    else
      s + [x]
  }

  /** Insertion sort as a function: insert the elements one by one, in input order. */
  function InsertionSortBy<T>(s: seq<T>, key: T -> int): (r: seq<T>)
    ensures |r| == |s|
    decreases |s|
  {
    if s == [] then []
    else
      Insert(InsertionSortBy(s[..|s| - 1], key), s[|s| - 1], key)
  }

  /** Insert adds exactly the one element. */
  lemma {:induction false} InsertMultiset<T>(s: seq<T>, x: T, key: T -> int)
    ensures multiset(Insert(s, x, key)) == multiset(s) + multiset{x}
    decreases |s|
  {
    if |s| > 0 && key(s[|s| - 1]) > key(x) {
      InsertMultiset(s[..|s| - 1], x, key);
      assert s == s[..|s| - 1] + [s[|s| - 1]];
    }
  }

  /** The functional insertion sort is a permutation of its input. */
  lemma {:induction false} InsertionSortPermutation<T>(s: seq<T>, key: T -> int)
    ensures multiset(InsertionSortBy(s, key)) == multiset(s)
    decreases |s|
  {
    if s != [] {
      InsertionSortPermutation(s[..|s| - 1], key);
      InsertMultiset(InsertionSortBy(s[..|s| - 1], key), s[|s| - 1], key);
      assert s == s[..|s| - 1] + [s[|s| - 1]];
    }
  }

  /** SortedBy on the identity key is Sorted. */
  lemma SortedByIdentity(s: seq<int>)
    ensures SortedBy(s, Identity) <==> Sorted(s)
  {
  }

  /**
   * The backward scan stops at the first position k whose predecessor's key
   * is not greater than x's; then x lands at k and everything from k on moves
   * up by one.
   */
  lemma {:induction false} InsertSplit<T>(s: seq<T>, x: T, key: T -> int, k: nat)
    requires k <= |s|
    requires forall m :: k <= m < |s| ==> key(s[m]) > key(x)
    requires k == 0 || key(s[k - 1]) <= key(x)
    ensures Insert(s, x, key) == s[..k] + [x] + s[k..]
    decreases |s| - k
  {
    if k < |s| {
      var init, last := s[..|s| - 1], s[|s| - 1];
      assert Insert(s, x, key) == Insert(init, x, key) + [last] by {
        assert key(last) > key(x);
      }
      assert Insert(init, x, key) == init[..k] + [x] + init[k..] by {
        InsertSplit(init, x, key, k);
      }
      assert init[k..] + [last] == s[k..];
      assert init[..k] == s[..k];
    } else {
      assert s[..k] == s && s[k..] == [];
    }
  }

  /** Inserting into a sorted sequence keeps it sorted. */
  lemma {:induction false} InsertSorted<T>(s: seq<T>, x: T, key: T -> int)
    requires SortedBy(s, key)
    ensures SortedBy(Insert(s, x, key), key)
    decreases |s|
  {
    if |s| > 0 && key(s[|s| - 1]) > key(x) {
      var init, last := s[..|s| - 1], s[|s| - 1];
      InsertSorted(init, x, key);
      InsertMultiset(init, x, key);
      var r' := Insert(init, x, key);
      forall i | 0 <= i < |r'| ensures key(r'[i]) <= key(last) {
        assert r'[i] in multiset(r');
        if r'[i] != x {
          assert r'[i] in multiset(init);
          var m :| 0 <= m < |init| && init[m] == r'[i];
          assert s[m] == r'[i];
        }
      }
      var r := r' + [last];
      forall i, j | 0 <= i < j < |r| ensures key(r[i]) <= key(r[j]) {
        if j < |r'| {
          assert r[i] == r'[i] && r[j] == r'[j];
        }
      }
    }
  }

  /** The functional insertion sort yields a sequence sorted by key. */
  lemma {:induction false} InsertionSortSorted<T>(s: seq<T>, key: T -> int)
    ensures SortedBy(InsertionSortBy(s, key), key)
    decreases |s|
  {
    if s != [] {
      InsertionSortSorted(s[..|s| - 1], key);
      InsertSorted(InsertionSortBy(s[..|s| - 1], key), s[|s| - 1], key);
    }
  }

  /** On an input already sorted by key every backward scan stops at once, so nothing moves. */
  lemma {:induction false} InsertionSortOfSorted<T>(s: seq<T>, key: T -> int)
    requires SortedBy(s, key)
    ensures InsertionSortBy(s, key) == s
    decreases |s|
  {
    if s != [] {
      var init := s[..|s| - 1];
      assert SortedBy(init, key);
      InsertionSortOfSorted(init, key);
      assert |init| > 0 ==> key(init[|init| - 1]) <= key(s[|s| - 1]);
      assert Insert(init, s[|s| - 1], key) == init + [s[|s| - 1]];
      assert s == init + [s[|s| - 1]];
    }
  }

  /** Every element of `s` paired with its position in `s`. */
  function Tag(s: seq<int>): seq<(int, int)> {
    seq(|s|, i requires 0 <= i < |s| => (s[i], i))
  }

  /** The values of a sequence of (value, position) pairs. */
  function Values(t: seq<(int, int)>): seq<int> {
    seq(|t|, i requires 0 <= i < |t| => t[i].0)
  }

  /** Among equal values, the input positions come in increasing order. */
  ghost predicate Stable(t: seq<(int, int)>) {
    forall i, j :: 0 <= i < j < |t| && t[i].0 == t[j].0 ==> t[i].1 < t[j].1
  }

  /** Sorting pairs by value and then dropping positions is sorting the values. */
  lemma {:induction false} InsertValues(r: seq<(int, int)>, x: (int, int))
    ensures Values(Insert(r, x, Value)) == Insert(Values(r), x.0, Identity)
    decreases |r|
  {
    if |r| > 0 && r[|r| - 1].0 > x.0 {
      var init := r[..|r| - 1];
      InsertValues(init, x);
      assert Values(r)[..|r| - 1] == Values(init);
      assert Values(Insert(init, x, Value) + [r[|r| - 1]]) == Values(Insert(init, x, Value)) + [r[|r| - 1].0];
    } else {
      assert Values(r + [x]) == Values(r) + [x.0];
    }
  }

  /** Inserting a pair whose position exceeds all present positions keeps the order stable. */
  lemma {:induction false} InsertStable(r: seq<(int, int)>, x: (int, int))
    requires Stable(r)
    requires forall i :: 0 <= i < |r| ==> r[i].1 < x.1
    ensures Stable(Insert(r, x, Value))
    decreases |r|
  {
    if |r| > 0 && r[|r| - 1].0 > x.0 {
      var init, last := r[..|r| - 1], r[|r| - 1];
      InsertStable(init, x);
      InsertMultiset(init, x, Value);
      var r' := Insert(init, x, Value);
      forall i | 0 <= i < |r'| && r'[i].0 == last.0 ensures r'[i].1 < last.1 {
        assert r'[i] in multiset(r');
        assert r'[i] != x;
        assert r'[i] in multiset(init);
        var m :| 0 <= m < |init| && init[m] == r'[i];
        assert r[m] == r'[i];
      }
      var t := r' + [last];
      forall i, j | 0 <= i < j < |t| && t[i].0 == t[j].0 ensures t[i].1 < t[j].1 {
        if j < |r'| {
          assert t[i] == r'[i] && t[j] == r'[j];
        }
      }
    }
  }

  /** Sorting the tagged sequence keeps only positions of the input. */
  lemma TagsBelow(s: seq<int>)
    ensures forall i :: 0 <= i < |s| ==> InsertionSortBy(Tag(s), Value)[i].1 < |s|
  {
    var r := InsertionSortBy(Tag(s), Value);
    InsertionSortPermutation(Tag(s), Value);
    forall i | 0 <= i < |r| ensures r[i].1 < |s| {
      assert r[i] in multiset(Tag(s));
      var m :| 0 <= m < |Tag(s)| && Tag(s)[m] == r[i];
    }
  }

  /**
   * Stability of insertion sort: sort the values tagged with their input
   * positions; the values come out exactly as the plain sort orders them,
   * and equal values keep their input order.
   */
  lemma {:induction false} InsertionSortStable(s: seq<int>)
    ensures Values(InsertionSortBy(Tag(s), Value)) == InsertionSortBy(s, Identity)
    ensures Stable(InsertionSortBy(Tag(s), Value))
    decreases |s|
  {
    if s != [] {
      var n := |s|;
      var init := s[..n - 1];
      InsertionSortStable(init);
      assert Tag(s)[..n - 1] == Tag(init);
      var r := InsertionSortBy(Tag(init), Value);
      assert InsertionSortBy(Tag(s), Value) == Insert(r, (s[n - 1], n - 1), Value);
      InsertValues(r, (s[n - 1], n - 1));
      TagsBelow(init);
      InsertStable(r, (s[n - 1], n - 1));
    }
  }

  /** The array after one outer iteration of insertion_sort holds Insert of the item into the sorted prefix. */
  lemma PlaceItem(p: seq<int>, item: int, j: int, q: seq<int>)
    requires -1 <= j < |p| && |q| == |p| + 1
    requires forall m :: 0 <= m <= j ==> q[m] == p[m]
    requires q[j + 1] == item
    requires forall m :: j + 2 <= m <= |p| ==> q[m] == p[m - 1]
    requires forall m :: j < m < |p| ==> p[m] > item
    requires j < 0 || p[j] <= item
    ensures q == Insert(p, item, Identity)
  {
    InsertSplit(p, item, Identity, j + 1);
    var t := p[..j + 1] + [item] + p[j + 1..];
    forall m | 0 <= m < |q| ensures q[m] == t[m] {
      if m <= j {
        assert t[m] == p[m];
      } else if m > j + 1 {
        assert t[m] == p[m - 1];
      }
    }
  }
}
