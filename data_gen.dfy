/**
 * Test-data generation of the benchmark (src/data_gen.c, with the types of
 * src/data_gen.h and src/sorting.h): in-place reversal, the two qsort
 * comparators, and generate_data, which fills a buffer with random draws and
 * then orders it.
 *
 * random_number is an oracle here: generate_data receives the sequence of
 * values its calls return, in call order. qsort is a library call and is
 * modelled by its contract only.
 */
module DataGen {
  import opened Sequences
  import opened InsertionSortSpec
  import Sorting

  /** How generate_data arranges the drawn values (src/data_gen.h). */
  datatype Ordering = SortedOrder | ReverseSortedOrder | RandomOrder

  /** The parameters of generate_data: the draw range and the arrangement. */
  datatype DataGeneratorParams = DataGeneratorParams(min: int, max: int, ordering: Ordering)

  /** The sorts the benchmark times (src/sorting.h). */
  datatype SortingAlgorithm = InsertionSortAlgorithm | CountingSortAlgorithm

  const INT_MIN: int := -0x8000_0000
  const INT_MAX: int := 0x7fff_ffff

  /** A value of C's 32-bit `int`. */
  predicate InInt32(x: int) {
    INT_MIN <= x <= INT_MAX
  }

  /**
   * reverse_array: swaps list[i] with list[size - 1 - i] for every i below
   * size / 2, so that position k ends up holding the old list[size - 1 - k].
   */
  method ReverseArray(list: array<int>, size: nat)
    requires size <= list.Length
    modifies list
    ensures list[..size] == Reversed(old(list[..size]))
    ensures size % 2 == 1 ==> list[size / 2] == old(list[size / 2])
    ensures list[size..] == old(list[size..])
  {
    ghost var s0 := list[..];
    var i := 0;
    var half := size / 2;
    while i < half
      invariant 0 <= i <= half && half == size / 2 && half <= size - half
      invariant forall k :: 0 <= k < i ==> list[k] == s0[size - 1 - k] && list[size - 1 - k] == s0[k]
      invariant forall k :: i <= k < size - i ==> list[k] == s0[k]
      invariant forall k :: size <= k < list.Length ==> list[k] == s0[k]
    {
      var j := size - 1 - i;
      var temp := list[i];
      list[i] := list[j];
      list[j] := temp;
      i := i + 1;
    }
    ReversedBySwaps(s0, list[..], size);
  }

  /**
   * int_comparison_asc: the difference a - b, negative, zero or positive
   * exactly as a is below, equal to or above b. The subtraction is on C's
   * `int`, so the comparator is defined only when it does not overflow.
   */
  function IntComparisonAsc(a: int, b: int): (r: int)
    requires InInt32(a) && InInt32(b) && InInt32(a - b)
    ensures InInt32(r)
    ensures r < 0 <==> a < b
    ensures r == 0 <==> a == b
    ensures r > 0 <==> a > b
  {
    a - b
  }

  /** int_comparison_desc: the ascending comparator with its arguments swapped. */
  function IntComparisonDesc(a: int, b: int): (r: int)
    requires InInt32(a) && InInt32(b) && InInt32(b - a)
    ensures r == IntComparisonAsc(b, a)
    ensures r < 0 <==> a > b
    ensures r == 0 <==> a == b
    ensures r > 0 <==> a < b
  {
    b - a
  }

  /** The comparator generate_data hands to qsort. */
  datatype Comparator = Ascending | Descending

  /** Every pair of values in s can be compared by either comparator without overflow. */
  ghost predicate Comparable(s: seq<int>) {
    (forall k :: 0 <= k < |s| ==> InInt32(s[k])) &&
    (forall i, j :: 0 <= i < |s| && 0 <= j < |s| ==> InInt32(s[i] - s[j]))
  }

  /** The comparator's verdict on a and b. */
  function Compare(cmp: Comparator, a: int, b: int): int
    requires InInt32(a) && InInt32(b) && InInt32(a - b) && InInt32(b - a)
  {
    match cmp
    case Ascending => IntComparisonAsc(a, b)
    case Descending => IntComparisonDesc(a, b)
  }

  /** qsort's order: the comparator never puts a later element before an earlier one. */
  ghost predicate SortedByComparator(cmp: Comparator, s: seq<int>)
    requires Comparable(s)
  {
    forall i, j :: 0 <= i < j < |s| ==> Compare(cmp, s[i], s[j]) <= 0
  }

  /** Ordered by the ascending comparator is non-decreasing; by the descending one, non-increasing. */
  lemma ComparatorOrder(s: seq<int>)
    requires Comparable(s)
    ensures SortedByComparator(Ascending, s) <==> Sorted(s)
    ensures SortedByComparator(Descending, s) <==> SortedDesc(s)
  {
  }

  /**
   * qsort(base, nmemb, sizeof(int), cmp), by its contract only: afterwards
   * base[0..nmemb) is ordered so that the comparator never reports a later
   * element as coming before an earlier one, wherever the comparator's
   * subtraction cannot overflow; that is non-decreasing for the ascending
   * comparator and non-increasing for the descending one (ComparatorOrder).
   * It is a permutation of what was there, and nothing past nmemb changes.
   * The body only shows that the contract can be met; it is not the
   * library's algorithm.
   */
  method QSort(base: array<int>, nmemb: nat, cmp: Comparator)
    requires nmemb <= base.Length
    modifies base
    ensures Comparable(base[..nmemb]) ==> SortedByComparator(cmp, base[..nmemb])
    ensures cmp == Ascending ==> Sorted(base[..nmemb])
    ensures cmp == Descending ==> SortedDesc(base[..nmemb])
    ensures multiset(base[..nmemb]) == multiset(old(base[..nmemb]))
    ensures base[nmemb..] == old(base[nmemb..])
  {
    ghost var shifts, origin := Sorting.InsertionSort(base, nmemb);
    if cmp == Descending {
      ghost var sorted := base[..nmemb];
      ReverseArray(base, nmemb);
      ReversedSorted(sorted);
      ReversedMultiset(sorted);
    }
    if Comparable(base[..nmemb]) {
      ComparatorOrder(base[..nmemb]);
    }
  }

  /**
   * What generate_data leaves in dest[0..size) for the drawn values: the
   * draws in draw order (RANDOM), the draws ascending (SORTED), or the draws
   * descending (REVERSE_SORTED). Every arrangement keeps the drawn values.
   */
  function Arrangement(ordering: Ordering, draws: seq<int>): (r: seq<int>)
    ensures |r| == |draws| && multiset(r) == multiset(draws)
  {
    match ordering
    case RandomOrder => draws
    case SortedOrder =>
      InsertionSortPermutation(draws, Identity);
      InsertionSortBy(draws, Identity)
    case ReverseSortedOrder =>
      InsertionSortPermutation(draws, Identity);
      ReversedMultiset(InsertionSortBy(draws, Identity));
      Reversed(InsertionSortBy(draws, Identity))
  }

  /**
   * SORTED is non-decreasing, REVERSE_SORTED non-increasing, and RANDOM is
   * the draws themselves.
   */
  lemma ArrangementOrdered(ordering: Ordering, draws: seq<int>)
    ensures ordering == SortedOrder ==> Sorted(Arrangement(ordering, draws))
    ensures ordering == ReverseSortedOrder ==> SortedDesc(Arrangement(ordering, draws))
    ensures ordering == RandomOrder ==> Arrangement(ordering, draws) == draws
  {
    var s := InsertionSortBy(draws, Identity);
    match ordering {
      case RandomOrder =>
      case SortedOrder =>
        InsertionSortSorted(draws, Identity);
        SortedByIdentity(s);
      case ReverseSortedOrder =>
        InsertionSortSorted(draws, Identity);
        SortedByIdentity(s);
        ReversedSorted(s);
    }
  }

  /**
   * The arrangement is the only one with its properties: any non-decreasing
   * (non-increasing) permutation of the draws is the SORTED (REVERSE_SORTED)
   * arrangement. So qsort's contract alone fixes generate_data's result.
   */
  lemma ArrangementUnique(draws: seq<int>, r: seq<int>)
    requires multiset(r) == multiset(draws)
    ensures Sorted(r) ==> r == Arrangement(SortedOrder, draws)
    ensures SortedDesc(r) ==> r == Arrangement(ReverseSortedOrder, draws)
  {
    ArrangementOrdered(SortedOrder, draws);
    ArrangementOrdered(ReverseSortedOrder, draws);
    if Sorted(r) {
      SortedUnique(r, Arrangement(SortedOrder, draws));
    }
    if SortedDesc(r) {
      SortedDescUnique(r, Arrangement(ReverseSortedOrder, draws));
    }
  }

  /**
   * generate_data: dest[i] receives the i-th draw for every i < size; for
   * SORTED or REVERSE_SORTED the buffer is then qsorted with the ascending or
   * descending comparator. Only dest[0..size) is written.
   */
  method GenerateData(dest: array<int>, params: DataGeneratorParams, size: nat, draws: seq<int>)
    requires size <= dest.Length && |draws| == size
    modifies dest
    ensures dest[..size] == Arrangement(params.ordering, draws)
    ensures dest[size..] == old(dest[size..])
  {
    var i := 0;
    while i < size
      invariant 0 <= i <= size
      invariant forall k :: 0 <= k < i ==> dest[k] == draws[k]
      invariant dest[size..] == old(dest[size..])
    {
      dest[i] := draws[i];
      i := i + 1;
    }
    assert dest[..size] == draws;

    if params.ordering == SortedOrder || params.ordering == ReverseSortedOrder {
      var comparison := if params.ordering == SortedOrder then Ascending else Descending;
      QSort(dest, size, comparison);
      ArrangementUnique(draws, dest[..size]);
    }
  }
}
