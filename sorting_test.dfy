/**
 * The root snapshot sorting_test.c: an earlier, self-contained timing
 * program with its own reverse_array, insertion_sort and generate_data, and
 * a main that builds an arithmetic table of array sizes.
 *
 * Its elements are C floats that are only compared and moved, and that come
 * from random_number (never NaN); they are modelled as int, so the Ordering
 * and DataGeneratorParams it declares are the ones of DataGen.
 */
module SortingTest {
  import opened Sequences
  import opened InsertionSortSpec
  import opened DataGen
  import Sorting

  /**
   * reverse_array of the snapshot: the same swap loop as src/data_gen.c's,
   * reached through a pointer to the array.
   */
  method ReverseArray(list: array<int>, size: nat)
    requires size <= list.Length
    modifies list
    ensures list[..size] == Reversed(old(list[..size]))
    ensures list[size..] == old(list[size..])
  {
    DataGen.ReverseArray(list, size);
  }

  /**
   * insertion_sort of the snapshot: the same shift-insertion loops as
   * src/sorting.c's, with the strict `>` test; its inner loop moves nothing
   * exactly when the input is already non-decreasing, and equal values keep
   * their input order.
   */
  method InsertionSort(list: array<int>, size: nat) returns (ghost shifts: nat, ghost origin: seq<int>)
    requires size <= list.Length
    modifies list
    ensures list[..size] == InsertionSortBy(old(list[..size]), Identity)
    ensures Sorted(list[..size])
    ensures multiset(list[..size]) == multiset(old(list[..size]))
    ensures list[size..] == old(list[size..])
    ensures shifts == 0 <==> Sorted(old(list[..size]))
    ensures Sorting.Traced(list[..size], old(list[..size]), origin) && Sorting.KeepsOrder(list[..size], origin)
  {
    shifts, origin := Sorting.InsertionSort(list, size);
  }

  /**
   * generate_data of the snapshot: a fresh buffer of `size` draws, insertion
   * sorted for SORTED and REVERSE_SORTED, then reversed for REVERSE_SORTED.
   * It leaves the same arrangement as src/data_gen.c's qsort version.
   */
  method GenerateData(params: DataGeneratorParams, size: nat, draws: seq<int>) returns (list: array<int>)
    requires |draws| == size
    ensures fresh(list) && list.Length == size
    ensures list[..] == Arrangement(params.ordering, draws)
  {
    list := new int[size];
    var i := 0;
    while i < size
      invariant 0 <= i <= size
      invariant forall k :: 0 <= k < i ==> list[k] == draws[k]
    {
      list[i] := draws[i];
      i := i + 1;
    }
    assert list[..] == list[..size] == draws;

    if params.ordering == SortedOrder || params.ordering == ReverseSortedOrder {
      ghost var shifts, origin := InsertionSort(list, size);
      if params.ordering == ReverseSortedOrder {
        ReverseArray(list, size);
      }
    }
    assert list[..] == list[..size];
  }

  /** main's table of array sizes: start, start + step, ..., num entries. */
  function SizeTableSpec(start: int, step: int, num: nat): (sizes: seq<int>)
    ensures |sizes| == num
  {
    seq(num, i => start + i * step)
  }

  /** A positive step makes the table strictly increasing from its start. */
  lemma {:induction false} SizeTableIncreasing(start: int, step: int, num: nat)
    requires step > 0
    ensures num > 0 ==> SizeTableSpec(start, step, num)[0] == start
    ensures forall i, j :: 0 <= i < j < num ==> SizeTableSpec(start, step, num)[i] < SizeTableSpec(start, step, num)[j]
  {
    var sizes := SizeTableSpec(start, step, num);
    forall i, j | 0 <= i < j < num ensures sizes[i] < sizes[j] {
      assert sizes[j] - sizes[i] == (j - i) * step;
      MulPositive(j - i, step);
    }
  }

  lemma MulPositive(a: int, b: int)
    requires a > 0 && b > 0
    ensures a * b > 0
  {
  }

  /** The loop of main that fills sizes[i] = start_size + i * step. */
  method SizeTable(start: int, step: int, num: nat) returns (sizes: array<int>)
    ensures fresh(sizes)
    ensures sizes[..] == SizeTableSpec(start, step, num)
  {
    sizes := new int[num];
    var i := 0;
    while i < num
      invariant 0 <= i <= num
      invariant forall k :: 0 <= k < i ==> sizes[k] == start + k * step
    {
      sizes[i] := start + i * step;
      i := i + 1;
    }
  }

  // The parameters main uses.
  const NO_OF_TESTS: nat := 30
  const TEST_REPETITIONS: nat := 3
  const DEFAULT_MIN: int := 1
  const DEFAULT_MAX: int := 100
  const START_SIZE: int := 1000
  const STEP: int := 500
  const NUM_SIZES: nat := 30

  const InsertionBestCase := DataGeneratorParams(DEFAULT_MIN, DEFAULT_MAX, SortedOrder)
  const InsertionWorstCase := DataGeneratorParams(DEFAULT_MIN, DEFAULT_MAX, ReverseSortedOrder)
  const InsertionAverageCase := DataGeneratorParams(DEFAULT_MIN, DEFAULT_MAX, RandomOrder)

  /**
   * main's size table runs from 1000 to 15500 in steps of 500, strictly
   * increasing, and every entry is a C `int`.
   */
  lemma MainSizeTable()
    ensures |SizeTableSpec(START_SIZE, STEP, NUM_SIZES)| == 30
    ensures SizeTableSpec(START_SIZE, STEP, NUM_SIZES)[0] == 1000
    ensures SizeTableSpec(START_SIZE, STEP, NUM_SIZES)[29] == 15500
    ensures forall i, j :: 0 <= i < j < 30 ==> SizeTableSpec(START_SIZE, STEP, NUM_SIZES)[i] < SizeTableSpec(START_SIZE, STEP, NUM_SIZES)[j]
    ensures forall i :: 0 <= i < 30 ==> InInt32(SizeTableSpec(START_SIZE, STEP, NUM_SIZES)[i])
  {
    SizeTableIncreasing(START_SIZE, STEP, NUM_SIZES);
  }

  /**
   * main times insertion_sort TEST_REPETITIONS times on the same best-case
   * list: sorting the SORTED arrangement gives it back, so every repetition
   * after the first sees the same sorted input.
   */
  lemma BestCaseRepeats(draws: seq<int>)
    ensures InsertionSortBy(Arrangement(InsertionBestCase.ordering, draws), Identity)
         == Arrangement(InsertionBestCase.ordering, draws)
  {
    ArrangementOrdered(SortedOrder, draws);
    SortedByIdentity(Arrangement(SortedOrder, draws));
    InsertionSortOfSorted(Arrangement(SortedOrder, draws), Identity);
  }
}
