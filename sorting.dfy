/**
 * The two integer sorts of the benchmark (src/sorting.c): an in-place
 * shift-insertion sort and a three-pass counting sort into a separate
 * buffer, each proved against its functional specification.
 */
module Sorting {
  import opened Sequences
  import opened InsertionSortSpec
  import opened CountingSortSpec
  import opened Placement

  /**
   * `origin` traces r back to s0: r[m] is the input element s0[origin[m]],
   * taken from one of the first |r| positions.
   */
  ghost predicate Traced(r: seq<int>, s0: seq<int>, origin: seq<int>) {
    |origin| == |r| <= |s0| &&
    forall m :: 0 <= m < |r| ==> 0 <= origin[m] < |r| && r[m] == s0[origin[m]]
  }

  /** Equal values of r came from input positions in increasing order. */
  ghost predicate KeepsOrder(r: seq<int>, origin: seq<int>) {
    |origin| == |r| &&
    forall m, n :: 0 <= m < n < |r| && r[m] == r[n] ==> origin[m] < origin[n]
  }

  /**
   * The body of insertion_sort's outer loop for index i: hold list[i], shift
   * every element of the sorted prefix that is strictly greater than it one
   * slot to the right, and drop the item into the gap. The ghost `shifts`
   * counts the iterations of the inner while loop: none exactly when the
   * item is not below its predecessor. The ghost `origin` records the input
   * position of every element of the prefix and moves with it; the item
   * came from position i.
   */
  method InsertItem(list: array<int>, i: nat, ghost s0: seq<int>, ghost origin: seq<int>)
    returns (ghost shifts: nat, ghost origin': seq<int>)
    requires i < list.Length && i < |s0| && list[i] == s0[i]
    requires Traced(list[..i], s0, origin) && KeepsOrder(list[..i], origin)
    modifies list
    ensures list[..i + 1] == Insert(old(list[..i]), old(list[i]), Identity)
    ensures list[i + 1..] == old(list[i + 1..])
    ensures shifts == 0 <==> i == 0 || old(list[i - 1]) <= old(list[i])
    ensures Traced(list[..i + 1], s0, origin') && KeepsOrder(list[..i + 1], origin')
  {
    ghost var p := list[..i];
    ghost var s1 := list[..];
    var item := list[i];
    var j: int := i - 1;
    shifts := 0;
    origin' := origin + [i];
    while j >= 0 && list[j] > item
      invariant Shifting(list[..], p, origin', origin, item, j)
      invariant shifts == i - 1 - j
      invariant list[i + 1..] == s1[i + 1..]
    {
      ghost var a, o := list[..], origin';
      list[j + 1] := list[j];
      origin' := origin'[j + 1 := origin'[j]];
      assert list[..] == a[j + 1 := a[j]];
      ShiftStep(a, p, o, origin, item, j);
      j := j - 1;
      shifts := shifts + 1;
    }
    ghost var a, o := list[..], origin';
    list[j + 1] := item;
    origin' := origin'[j + 1 := i];
    assert list[..] == a[j + 1 := item];
    ShiftDone(a, list[..], p, o, origin', origin, s0, item, j);
    assert list[..i + 1] == list[..][..i + 1];
    assert i > 0 ==> s1[i - 1] == p[i - 1];
  }

  /**
   * The inner loop's invariant with j the next slot to compare: slots up to
   * j still hold the prefix p and their origins, slots from j + 2 hold p and
   * its origins shifted up by one, and everything shifted is greater than
   * the item.
   */
  ghost predicate Shifting(a: seq<int>, p: seq<int>, o: seq<int>, origin: seq<int>, item: int, j: int) {
    -1 <= j < |p| < |a| && |origin| == |p| && |o| == |p| + 1 &&
    (forall m :: 0 <= m <= j ==> a[m] == p[m] && o[m] == origin[m]) &&
    (forall m :: j + 2 <= m <= |p| ==> a[m] == p[m - 1] && o[m] == origin[m - 1]) &&
    (forall m :: j < m < |p| ==> p[m] > item)
  }

  /** One shift of the inner loop keeps its invariant. */
  lemma ShiftStep(a: seq<int>, p: seq<int>, o: seq<int>, origin: seq<int>, item: int, j: int)
    requires 0 <= j && Shifting(a, p, o, origin, item, j) && a[j] > item
    ensures Shifting(a[j + 1 := a[j]], p, o[j + 1 := o[j]], origin, item, j - 1)
  {
  }

  /**
   * The inner loop has stopped and the item is written to slot j + 1: the
   * prefix is Insert of the item, with its origins traced and in order.
   */
  lemma ShiftDone(a: seq<int>, b: seq<int>, p: seq<int>, o: seq<int>, o': seq<int>, origin: seq<int>, s0: seq<int>, item: int, j: int)
    requires Shifting(a, p, o, origin, item, j) && (j < 0 || a[j] <= item)
    requires b == a[j + 1 := item] && o' == o[j + 1 := |p|]
    requires |p| < |s0| && s0[|p|] == item && Traced(p, s0, origin) && KeepsOrder(p, origin)
    ensures b[..|p| + 1] == Insert(p, item, Identity)
    ensures Traced(b[..|p| + 1], s0, o') && KeepsOrder(b[..|p| + 1], o')
  {
    var r := b[..|p| + 1];
    PlaceItem(p, item, j, r);
    OriginInsert(p, origin, s0, item, j, r, o');
  }

  /**
   * The origins after one insertion: positions up to j keep theirs, the item
   * at j + 1 came from i, and the shifted elements carry theirs along. Equal
   * values stay in input order because the item is placed after every
   * element not greater than it, and the item's position i is the largest.
   */
  lemma OriginInsert(p: seq<int>, origin: seq<int>, s0: seq<int>, item: int, j: int, r: seq<int>, o: seq<int>)
    requires |p| < |s0| && s0[|p|] == item && -1 <= j < |p|
    requires Traced(p, s0, origin) && KeepsOrder(p, origin)
    requires forall m :: j < m < |p| ==> p[m] > item
    requires |r| == |p| + 1 == |o|
    requires forall m :: 0 <= m <= j ==> r[m] == p[m] && o[m] == origin[m]
    requires r[j + 1] == item && o[j + 1] == |p|
    requires forall m :: j + 2 <= m <= |p| ==> r[m] == p[m - 1] && o[m] == origin[m - 1]
    ensures Traced(r, s0, o) && KeepsOrder(r, o)
  {
    forall m, n | 0 <= m < n < |r| && r[m] == r[n] ensures o[m] < o[n] {
      if n == j + 1 {
        assert o[m] == origin[m];
      } else if m == j + 1 {
        assert false;
      } else {
        var m' := if m <= j then m else m - 1;
        var n' := if n <= j then n else n - 1;
        assert r[m] == p[m'] && o[m] == origin[m'];
        assert r[n] == p[n'] && o[n] == origin[n'];
      }
    }
  }

  /**
   * The outer loop's invariant after the first i elements of s0 are
   * inserted: they are sorted as the functional insertion sort sorts them,
   * no shift has happened iff they were already sorted, their origins are
   * recorded, and the rest of the array is untouched.
   */
  ghost predicate Progress(a: seq<int>, s0: seq<int>, i: nat, shifts: nat, origin: seq<int>) {
    i <= |a| == |s0| &&
    a[..i] == InsertionSortBy(s0[..i], Identity) &&
    (shifts == 0 <==> Sorted(s0[..i])) &&
    Traced(a[..i], s0, origin) && KeepsOrder(a[..i], origin) &&
    a[i..] == s0[i..]
  }

  /**
   * insertion_sort: sorts list[0..size) in place; each outer iteration i
   * inserts list[i] into the already sorted prefix list[0..i). The ghost
   * `shifts` counts the element moves of all inner loops: none exactly when
   * the input was already non-decreasing. The ghost `origin` records, for
   * every slot, the input position its value came from: equal values keep
   * their input order, so the sort is stable.
   */
  method InsertionSort(list: array<int>, size: nat) returns (ghost shifts: nat, ghost origin: seq<int>)
    requires size <= list.Length
    modifies list
    ensures list[..size] == InsertionSortBy(old(list[..size]), Identity)
    ensures Sorted(list[..size])
    ensures multiset(list[..size]) == multiset(old(list[..size]))
    ensures list[size..] == old(list[size..])
    ensures shifts == 0 <==> Sorted(old(list[..size]))
    ensures Traced(list[..size], old(list[..size]), origin) && KeepsOrder(list[..size], origin)
  {
    ghost var s0 := list[..];
    shifts := 0;
    origin := if size > 0 then [0] else [];
    ProgressStart(s0, size);
    var i := 1;
    ghost var done := if size > 0 then 1 else 0;
    while i < size
      invariant 1 <= i && done == (if i < size then i else size)
      invariant Progress(list[..], s0, done, shifts, origin)
      decreases size - i
    {
      ghost var a := list[..];
      ProgressNext(a, s0, i, shifts, origin);
      var n, o := InsertItem(list, i, s0, origin);
      ProgressStep(a, list[..], s0, i, shifts, n, origin, o);
      shifts, origin, done := shifts + n, o, i + 1;
      i := i + 1;
    }
    assert list[..][..size] == list[..size] && list[..][size..] == list[size..];
    TracedPrefix(list[..size], s0, origin);
    assert s0[..size] == old(list[..size]);
    InsertionSortSorted(s0[..size], Identity);
    SortedByIdentity(list[..size]);
    InsertionSortPermutation(s0[..size], Identity);
  }

  /** A trace into s0 that stays within the first |r| positions is a trace into that prefix of s0. */
  lemma TracedPrefix(r: seq<int>, s0: seq<int>, origin: seq<int>)
    requires Traced(r, s0, origin)
    ensures Traced(r, s0[..|r|], origin)
  {
  }

  /** Before the outer loop, the first element (if any) is trivially in place. */
  lemma ProgressStart(s0: seq<int>, size: nat)
    requires size <= |s0|
    ensures Progress(s0, s0, if 1 < size then 1 else size, 0, if size > 0 then [0] else [])
  {
    if size > 0 {
      assert s0[..1][..0] == [];
    }
  }

  /** Progress at i gives what InsertItem needs for position i. */
  lemma ProgressNext(a: seq<int>, s0: seq<int>, i: nat, shifts: nat, origin: seq<int>)
    requires i < |a| && Progress(a, s0, i, shifts, origin)
    ensures i < |s0| && a[i] == s0[i]
    ensures Traced(a[..i], s0, origin) && KeepsOrder(a[..i], origin)
  {
    assert a[i] == a[i..][0];
  }

  /** One outer iteration, InsertItem's contract, moves Progress from i to i + 1. */
  lemma ProgressStep(a: seq<int>, b: seq<int>, s0: seq<int>, i: nat, shifts: nat, n: nat, origin: seq<int>, o: seq<int>)
    requires 0 < i < |a| == |b| && Progress(a, s0, i, shifts, origin)
    requires b[..i + 1] == Insert(a[..i], a[i], Identity) && b[i + 1..] == a[i + 1..]
    requires n == 0 <==> a[i - 1] <= a[i]
    requires Traced(b[..i + 1], s0, o) && KeepsOrder(b[..i + 1], o)
    ensures Progress(b, s0, i + 1, shifts + n, o)
  {
    assert a[i] == a[i..][0] == s0[i];
    NoShiftsSorted(a[..i], s0, i);
    assert s0[..i + 1][..i] == s0[..i];
    assert s0[i + 1..] == s0[i..][1..];
    assert a[i + 1..] == a[i..][1..];
  }

  /**
   * The outer step keeps "no shifts so far iff the input prefix is sorted":
   * a sorted prefix is its own insertion sort, so the next item is compared
   * with its own predecessor in the input.
   */
  lemma NoShiftsSorted(prefix: seq<int>, s0: seq<int>, i: nat)
    requires 0 < i < |s0| && prefix == InsertionSortBy(s0[..i], Identity)
    ensures Sorted(s0[..i + 1]) <==> Sorted(s0[..i]) && prefix[i - 1] <= s0[i]
  {
    SortedPrefixNext(s0, i);
    if Sorted(s0[..i]) {
      SortedByIdentity(s0[..i]);
      InsertionSortOfSorted(s0[..i], Identity);
    }
  }

  /**
   * counting_sort's count array: max_value + 1 fresh slots (create_array),
   * then the loop that sets each of them to 0.
   */
  method NewCounts(maxValue: int) returns (count: array<int>)
    requires -1 <= maxValue
    ensures fresh(count) && count.Length == maxValue + 1
    ensures forall v :: 0 <= v < count.Length ==> count[v] == 0
  {
    count := new int[maxValue + 1];
    var i := 0;
    while i <= maxValue
      invariant 0 <= i <= maxValue + 1
      invariant forall v :: 0 <= v < i ==> count[v] == 0
    {
      count[i] := 0;
      i := i + 1;
    }
  }

  /**
   * counting_sort's counting loop: count[v] becomes the number of
   * occurrences of v in list[0..size).
   */
  method CountValues(list: array<int>, size: nat, count: array<int>)
    requires list != count && size <= list.Length
    requires forall k :: 0 <= k < size ==> 0 <= list[k] < count.Length
    requires forall v :: 0 <= v < count.Length ==> count[v] == 0
    modifies count
    ensures forall v :: 0 <= v < count.Length ==> count[v] == multiset(list[..size])[v]
  {
    var j := 0;
    while j < size
      invariant 0 <= j <= size
      invariant forall v :: 0 <= v < count.Length ==> count[v] == multiset(list[..j])[v]
    {
      count[list[j]] := count[list[j]] + 1;
      assert list[..j + 1] == list[..j] + [list[j]];
      j := j + 1;
    }
    assert list[..j] == list[..size];
  }

  /**
   * counting_sort's cumulative-sum loop: turns occurrence counts of the
   * values of L into count[v] = number of elements of L that are <= v; so
   * when every value is below count.Length, the last count is |L|.
   */
  method CumulativeSums(count: array<int>, ghost L: seq<int>)
    requires forall k :: 0 <= k < |L| ==> 0 <= L[k]
    requires forall v :: 0 <= v < count.Length ==> count[v] == multiset(L)[v]
    modifies count
    ensures forall v :: 0 <= v < count.Length ==> count[v] == CountLess(L, v + 1)
    ensures 0 < count.Length && (forall k :: 0 <= k < |L| ==> L[k] < count.Length) ==> count[count.Length - 1] == |L|
  {
    if forall k :: 0 <= k < |L| ==> L[k] < count.Length {
      CountLessAll(L, count.Length);
    }
    CountLessNone(L, 0);
    CountLessNext(L, 0);
    var i := 1;
    while i < count.Length
      invariant 1 <= i && (i <= count.Length || i == 1)
      invariant forall v :: 0 <= v < i && v < count.Length ==> count[v] == CountLess(L, v + 1)
      invariant forall v :: i <= v < count.Length ==> count[v] == multiset(L)[v]
    {
      CountLessNext(L, i);
      count[i] := count[i] + count[i - 1];
      i := i + 1;
    }
  }

  /** PlaceInv, read off the arrays of counting_sort. */
  ghost predicate PlaceState(list: array<int>, output: array<int>, size: nat, count: array<int>, origin: seq<int>, j: int)
    reads list, output, count
  {
    size <= list.Length && size <= output.Length &&
    PlaceInv(list[..size], count.Length - 1, count[..], output[..size], origin, j)
  }

  /**
   * One iteration of counting_sort's placement loop: output[count[v] - 1]
   * receives v = list[j], and count[v] goes down by one.
   */
  method PlaceOne(list: array<int>, output: array<int>, size: nat, count: array<int>,
                  ghost origin: seq<int>, j: int)
    returns (ghost origin': seq<int>)
    requires list != output && count != output && count != list && 0 <= j
    requires PlaceState(list, output, size, count, origin, j)
    modifies output, count
    ensures PlaceState(list, output, size, count, origin', j - 1)
    ensures output[size..] == old(output[size..])
  {
    ghost var L, maxValue := list[..size], count.Length - 1;
    ghost var cnt, out, rest := count[..], output[..size], output[size..];
    var v := list[j];
    var pos := count[v] - 1;
    assert v == L[j];
    PlaceStep(L, maxValue, cnt, out, origin, j);
    output[pos] := v;
    count[v] := pos;
    origin' := origin[pos := j];
    assert output[..size] == out[pos := v];
    assert output[size..] == rest;
    assert count[..] == cnt[v := pos];
  }

  /** The placement loop itself, from j = size - 1 down to 0. */
  method PlaceLoop(list: array<int>, output: array<int>, size: nat, count: array<int>,
                   ghost origin0: seq<int>)
    returns (ghost origin: seq<int>)
    requires list != output && count != output && count != list
    requires PlaceState(list, output, size, count, origin0, size - 1)
    modifies output, count
    ensures PlaceState(list, output, size, count, origin, -1)
    ensures output[size..] == old(output[size..])
  {
    origin := origin0;
    var j := size - 1;
    while j >= 0
      invariant PlaceState(list, output, size, count, origin, j)
      invariant output[size..] == old(output[size..])
      decreases j + 1
    {
      origin := PlaceOne(list, output, size, count, origin, j);
      j := j - 1;
    }
  }

  /**
   * counting_sort's placement loop: walks list[0..size) from the end and
   * writes every element at output[count[v] - 1], then decrements count[v],
   * starting from the cumulative counts with nothing placed (PlaceStart).
   * The ghost `origin` records the input position each output slot got.
   */
  method PlaceBackward(list: array<int>, output: array<int>, size: nat, count: array<int>)
    returns (ghost origin: seq<int>)
    requires list != output && count != output && count != list
    requires size <= list.Length && size <= output.Length
    requires forall k :: 0 <= k < size ==> 0 <= list[k] < count.Length
    requires forall v :: 0 <= v < count.Length ==> count[v] == CountLess(list[..size], v + 1)
    modifies output, count
    ensures Sorted(output[..size])
    ensures multiset(output[..size]) == multiset(list[..size])
    ensures output[..size] == InsertionSortBy(list[..size], Identity)
    ensures |origin| == size
    ensures forall p :: 0 <= p < size ==> 0 <= origin[p] < size && output[p] == list[origin[p]]
    ensures forall p, q :: 0 <= p < q < size && output[p] == output[q] ==> origin[p] < origin[q]
    ensures output[size..] == old(output[size..])
  {
    ghost var origin0 := seq(size, _ => -1);
    PlaceStart(list[..size], count.Length - 1, count[..], output[..size], origin0);
    origin := PlaceLoop(list, output, size, count, origin0);
    PlaceDone(list[..size], count.Length - 1, count[..], output[..size], origin);
  }

  /**
   * counting_sort: writes list[0..size) in ascending order into
   * output[0..size), for values in [0, max_value]: allocate and zero the
   * count array, count each value, take cumulative sums (count[v] = number
   * of elements <= v), then place backwards so equal values keep their
   * input order. The ghost `origin` records, for every output slot, the
   * input position its value came from.
   */
  method CountingSort(list: array<int>, output: array<int>, size: nat, maxValue: int)
    returns (ghost origin: seq<int>)
    requires list != output
    requires size <= list.Length && size <= output.Length
    requires -1 <= maxValue
    requires forall k :: 0 <= k < size ==> 0 <= list[k] <= maxValue
    modifies output
    ensures unchanged(list)
    ensures Sorted(output[..size])
    ensures multiset(output[..size]) == multiset(list[..size])
    ensures output[..size] == InsertionSortBy(list[..size], Identity)
    ensures |origin| == size
    ensures forall p :: 0 <= p < size ==> 0 <= origin[p] < size && output[p] == list[origin[p]]
    ensures forall p, q :: 0 <= p < q < size && output[p] == output[q] ==> origin[p] < origin[q]
    ensures output[size..] == old(output[size..])
  {
    var count := NewCounts(maxValue);
    CountValues(list, size, count);
    CumulativeSums(count, list[..size]);
    origin := PlaceBackward(list, output, size, count);
  }
}
