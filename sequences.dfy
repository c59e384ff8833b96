/** Orderings and reversal of integer sequences, shared by the sorts and the data generators. */
module Sequences {

  /** Non-decreasing: what both sorts and the SORTED ordering promise. */
  ghost predicate Sorted(s: seq<int>) {
    forall i, j :: 0 <= i < j < |s| ==> s[i] <= s[j]
  }

  /** A sorted prefix grows by one exactly when the next element is not below the last one. */
  lemma SortedPrefixNext(s: seq<int>, i: nat)
    requires 0 < i < |s|
    ensures Sorted(s[..i + 1]) <==> Sorted(s[..i]) && s[i - 1] <= s[i]
  {
    var t, u := s[..i + 1], s[..i];
    if Sorted(u) && s[i - 1] <= s[i] {
      forall a, b | 0 <= a < b < i + 1 ensures t[a] <= t[b] {
        if b == i && a < i - 1 {
          assert u[a] <= u[i - 1];
        } else if b < i {
          assert u[a] <= u[b];
        }
      }
    }
    if Sorted(t) {
      assert t[i - 1] <= t[i];
      forall a, b | 0 <= a < b < i ensures u[a] <= u[b] {
        assert t[a] <= t[b];
      }
    }
  }

  /** Non-increasing: what the REVERSE_SORTED ordering promises. */
  ghost predicate SortedDesc(s: seq<int>) {
    forall i, j :: 0 <= i < j < |s| ==> s[i] >= s[j]
  }

  /** The sequence read back to front: position k receives the element at |s| - 1 - k. */
  function Reversed(s: seq<int>): (r: seq<int>)
    ensures |r| == |s|
    ensures forall k :: 0 <= k < |s| ==> r[k] == s[|s| - 1 - k]
    decreases |s|
  {
    if s == [] then [] else [s[|s| - 1]] + Reversed(s[..|s| - 1])
  }

  /**
   * The state reverse_array's swap loop leaves after size / 2 rounds: the
   * first and last size / 2 positions of the first `size` exchanged, the
   * middle and everything from `size` on untouched. That is the reversal of
   * the first `size` elements followed by the unchanged rest.
   */
  lemma ReversedBySwaps(s0: seq<int>, s: seq<int>, size: nat)
    requires size <= |s0| == |s|
    requires forall k :: 0 <= k < size / 2 ==> s[k] == s0[size - 1 - k] && s[size - 1 - k] == s0[k]
    requires forall k :: size / 2 <= k < size - size / 2 ==> s[k] == s0[k]
    requires forall k :: size <= k < |s| ==> s[k] == s0[k]
    ensures s[..size] == Reversed(s0[..size])
    ensures s[size..] == s0[size..]
  {
    var h := size / 2;
    forall k | 0 <= k < size ensures s[k] == s0[size - 1 - k] {
      if k >= size - h {
        var m := size - 1 - k;
        assert s[size - 1 - m] == s0[m];
      }
    }
    var r := Reversed(s0[..size]);
    assert forall k :: 0 <= k < size ==> r[k] == s0[size - 1 - k];
    assert forall k :: 0 <= k < |s| - size ==> s[size..][k] == s0[size..][k];
  }

  /** Reversing twice gives back the original sequence. */
  lemma ReversedInvolution(s: seq<int>)
    ensures Reversed(Reversed(s)) == s
  {
    var r := Reversed(Reversed(s));
    assert forall k :: 0 <= k < |s| ==> r[k] == s[k];
  }

  /** Reversal moves elements but keeps every one of them. */
  lemma {:induction false} ReversedMultiset(s: seq<int>)
    ensures multiset(Reversed(s)) == multiset(s)
    decreases |s|
  {
    if s != [] {
      var init := s[..|s| - 1];
      ReversedMultiset(init);
      assert s == init + [s[|s| - 1]];
    }
  }

  /** Reversal turns a non-decreasing sequence into a non-increasing one and back. */
  lemma ReversedSorted(s: seq<int>)
    ensures Sorted(s) <==> SortedDesc(Reversed(s))
    ensures SortedDesc(s) <==> Sorted(Reversed(s))
  {
    var r := Reversed(s);
    if SortedDesc(r) {
      forall i, j | 0 <= i < j < |s| ensures s[i] <= s[j] {
        assert s[i] == r[|s| - 1 - i] && s[j] == r[|s| - 1 - j];
      }
    }
    if Sorted(r) {
      forall i, j | 0 <= i < j < |s| ensures s[i] >= s[j] {
        assert s[i] == r[|s| - 1 - i] && s[j] == r[|s| - 1 - j];
      }
    }
  }

  /** The first element of a non-decreasing sequence is its least. */
  lemma SortedHeadLeast(a: seq<int>, x: int)
    requires Sorted(a) && x in multiset(a)
    ensures a[0] <= x
  {
    var k :| 0 <= k < |a| && a[k] == x;
    assert k == 0 || a[0] <= a[k];
  }

  /**
   * Two non-empty non-decreasing sequences with the same elements start with
   * the same least element, and what follows is again such a pair.
   */
  lemma SortedUniqueStep(a: seq<int>, b: seq<int>)
    requires Sorted(a) && Sorted(b) && |a| > 0 && |b| > 0
    requires multiset(a) == multiset(b)
    ensures a[0] == b[0]
    ensures Sorted(a[1..]) && Sorted(b[1..])
    ensures multiset(a[1..]) == multiset(b[1..])
  {
    assert a[0] in multiset(a) && b[0] in multiset(b);
    SortedHeadLeast(b, a[0]);
    SortedHeadLeast(a, b[0]);
    DropHead(a);
    DropHead(b);
  }

  /** Dropping the first element removes one copy of it and keeps a non-decreasing sequence so. */
  lemma DropHead(a: seq<int>)
    requires |a| > 0
    ensures multiset(a[1..]) == multiset(a) - multiset{a[0]}
    ensures Sorted(a) ==> Sorted(a[1..])
  {
    assert a == [a[0]] + a[1..];
    if Sorted(a) {
      var t := a[1..];
      forall i, j | 0 <= i < j < |t| ensures t[i] <= t[j] {
        assert t[i] == a[i + 1] && t[j] == a[j + 1];
      }
    }
  }

  /** Two non-decreasing sequences holding the same elements are equal: a sorted permutation is unique. */
  lemma {:induction false} SortedUnique(a: seq<int>, b: seq<int>)
    requires Sorted(a) && Sorted(b)
    requires multiset(a) == multiset(b)
    ensures a == b
    decreases |a|
  {
    assert |a| == |multiset(a)| == |multiset(b)| == |b|;
    if |a| > 0 {
      SortedUniqueStep(a, b);
      SortedUnique(a[1..], b[1..]);
      assert a == [a[0]] + a[1..] && b == [b[0]] + b[1..];
    }
  }

  /** The same for non-increasing sequences. */
  lemma SortedDescUnique(a: seq<int>, b: seq<int>)
    requires SortedDesc(a) && SortedDesc(b)
    requires multiset(a) == multiset(b)
    ensures a == b
  {
    ReversedSorted(a);
    ReversedSorted(b);
    ReversedMultiset(a);
    ReversedMultiset(b);
    SortedUnique(Reversed(a), Reversed(b));
    ReversedInvolution(a);
    ReversedInvolution(b);
  }
}
