# alg-cw1 sorting benchmark, modelled in Dafny

This project models the verifiable core of a small sorting benchmark:

- the two integer sorts in `src/sorting.c`:
  - an in-place shift-insertion sort;
  - a three-pass counting sort into a separate output buffer;
- the test-data helpers in `src/data_gen.c`: in-place reversal, the two
  `qsort` comparators, and `generate_data`;
- the older self-contained timing program `sorting_test.c`. It has its own
  insertion sort, reversal, data generator and a table of array sizes;
- two parts of `get_results.py`:
  - the CSV parser `parse_csv`, a line-by-line state machine over
    `alg,case` header lines and `size,time` data lines;
  - the argument lists that `collect_data` builds.

Every C routine that changes an array is a Dafny `method` on an `array<int>`,
with its loops and their invariants. Each such method is proved against a
functional specification:

- Insertion sort is specified by `InsertionSortSpec.InsertionSortBy`, insertion
  sort written as a function.
- Counting sort's output is proved sorted, a permutation of the input and
  stable. The proof that it is stable uses a ghost map `origin` that records
  which input position each output slot came from. By uniqueness of sorted
  permutations, the output also equals the functional insertion sort.
- `reverse_array` is specified by `Sequences.Reversed`.
- `generate_data` is specified by `DataGen.Arrangement`.

Module layout:

- `wrappers.dfy`: `Option` and `Result`.
- `sequences.dfy`: sortedness, reversal, and the uniqueness of sorted permutations.
- `insertion_spec.dfy`: insertion sort as a function, and its permutation,
  sortedness and stability lemmas.
- `counting_spec.dfy` and `placement.dfy`: the counting function `CountLess`, and
  the invariant of counting sort's backward placement loop together with its lemmas.
- `sorting.dfy`: the methods for `src/sorting.c`.
- `data_gen.dfy`: `src/data_gen.c`, with `src/data_gen.h` and `src/sorting.h`
  as datatypes.
- `sorting_test.dfy`: the root `sorting_test.c`.
- `get_results.dfy`: `get_results.py`.

External inputs are parameters:

- `random_number` is an oracle. `generate_data` receives the sequence of values
  its calls return, in call order.
- `qsort` is modelled only by its contract: for the chosen comparator, the
  result is ordered and a permutation.
- Python's `int()` and `float()` are function parameters that return `None`
  where Python raises `ValueError`. The time values have a generic type `T`.

## Model

| member | source | states |
|---|---|---|
| Sequences.Reversed | src/data_gen.c:18-25 | the reversal has the same length and puts the element from position \|s\|-1-k at k |
| Sequences.ReversedBySwaps | src/data_gen.c:19-24 | after size/2 swaps of position i with size-1-i, the first size elements are reversed and the rest is unchanged |
| Sequences.ReversedInvolution | src/data_gen.c:18-25 | reversing twice gives back the original sequence |
| Sequences.ReversedMultiset | src/data_gen.c:19-24 | reversal keeps the multiset of values |
| Sequences.ReversedSorted | sorting_test.c:83-90 | a sequence is non-decreasing iff its reversal is non-increasing, and the other way round |
| Sequences.SortedUnique | src/data_gen.c:70 | two non-decreasing sequences with the same multiset are equal, so a sorted permutation is unique |
| Sequences.SortedDescUnique | src/data_gen.c:70 | the same for non-increasing sequences |
| Sequences.SortedHeadLeast | src/data_gen.c:70 | the first element of a non-decreasing sequence is at most every element of it |
| Sequences.SortedUniqueStep | src/data_gen.c:70 | two non-decreasing sequences with the same multiset have the same first element, and their tails are again sorted with equal multisets |
| Sequences.DropHead | src/data_gen.c:70 | dropping the first element removes exactly one copy of it from the multiset and keeps a sequence sorted |
| Sequences.SortedPrefixNext | src/sorting.c:15 | a non-decreasing prefix extends by one element exactly when that element is not below the last one |
| InsertionSortSpec.Insert | src/sorting.c:10-26 | one outer step gives a sequence one element longer; where the item lands is stated by InsertSplit and what it adds by InsertMultiset |
| InsertionSortSpec.InsertionSortBy | src/sorting.c:8-28 | insertion sort as a function: inserting the elements in input order keeps the length |
| InsertionSortSpec.InsertMultiset | src/sorting.c:10-26 | one insertion adds exactly the one element to the multiset |
| InsertionSortSpec.InsertionSortPermutation | src/sorting.c:8-28 | the functional insertion sort is a permutation of its input |
| InsertionSortSpec.SortedByIdentity | src/sorting.c:8-28 | sorted by the identity key is exactly non-decreasing |
| InsertionSortSpec.InsertSplit | src/sorting.c:15-26 | the backward scan stops at the first position whose predecessor is not greater than the item; the item lands there and everything after it moves up by one |
| InsertionSortSpec.InsertSorted | src/sorting.c:10-26 | inserting into a sorted sequence keeps it sorted |
| InsertionSortSpec.InsertionSortSorted | src/sorting.c:8-28 | the functional insertion sort is sorted by key |
| InsertionSortSpec.InsertionSortOfSorted | src/sorting.c:15-21 | an input that is already sorted comes back unchanged |
| InsertionSortSpec.InsertValues | src/sorting.c:15 | inserting a (value, position) pair by value and then dropping the positions is inserting the value |
| InsertionSortSpec.InsertStable | src/sorting.c:15 | because of the strict `>` test, inserting a pair with the highest position keeps equal values in position order |
| InsertionSortSpec.TagsBelow | src/sorting.c:8-28 | sorting the tagged input keeps only input positions |
| InsertionSortSpec.InsertionSortStable | src/sorting.c:15 | sorting (value, position) pairs gives the sorted values, and equal values keep their input order: insertion sort is stable |
| InsertionSortSpec.PlaceItem | src/sorting.c:15-26 | the array after the shifts and the final write is Insert of the item into the prefix |
| CountingSortSpec.CountLess | src/sorting.c:47-49 | the number of elements below v is at most the length |
| CountingSortSpec.CountLessNext | src/sorting.c:47-49 | raising the bound from v to v+1 adds the occurrences of v; this is the prefix-sum step |
| CountingSortSpec.CountLessMono | src/sorting.c:47-49 | the count below v grows with v |
| CountingSortSpec.CountLessNone | src/sorting.c:47-49 | nothing is below a bound that no element goes under |
| CountingSortSpec.CountLessAll | src/sorting.c:47-49 | everything is below a bound above every element, so the last cumulative count is size |
| CountingSortSpec.PlacedWrite | src/sorting.c:53 | writing a value into a free output slot adds exactly that value to the placed multiset |
| CountingSortSpec.PlacedFull | src/sorting.c:52-58 | once as many values are placed as there are slots, every slot is written and the placed values are the whole output |
| CountingSortSpec.PlacedNone | src/sorting.c:52 | before the placement loop nothing is placed |
| CountingSortSpec.StepCounts | src/sorting.c:57 | decrementing count[list[j]] keeps "count[v] is the start of v's block plus the occurrences of v not yet placed" |
| Placement.PlaceSlot | src/sorting.c:53 | the write index count[list[j]]-1 lies in [0, size), inside list[j]'s block, and is still free, and earlier written equal values lie after it |
| Placement.StepSlots | src/sorting.c:52-58 | after the write and the decrement, every written slot still holds an input element inside its block's filled tail |
| Placement.StepOrder | src/sorting.c:52-58 | walking backwards puts equal values in input order |
| Placement.PlaceStep | src/sorting.c:52-58 | one iteration of the placement loop keeps the loop invariant, one position further back |
| Placement.PlaceDone | src/sorting.c:52-58 | at the end of the loop the output is sorted, a permutation of the input, equal to the insertion sort, and stable |
| Placement.PlaceStart | src/sorting.c:47-52 | the cumulative counts and an empty output satisfy the loop invariant at j = size-1 |
| Sorting.InsertItem | src/sorting.c:10-26 | one outer iteration leaves list[0..i] equal to Insert of list[i] into the prefix and the rest unchanged; the inner while runs zero times iff the item is not below its predecessor; the ghost origins moved with the values trace every slot to its input position, with equal values in input order |
| Sorting.ShiftStep | src/sorting.c:15-20 | one shift list[j+1] = list[j] keeps the inner loop's invariant one slot further back |
| Sorting.ShiftDone | src/sorting.c:15-26 | when the inner loop stops and the item is written to j+1, the prefix is Insert of the item, traced to input positions with equal values in input order |
| Sorting.OriginInsert | src/sorting.c:15-26 | the item lands after every element not greater than it, so equal values keep their input order after each insertion |
| Sorting.ProgressStart | src/sorting.c:9 | before the outer loop, one element (or none) is trivially sorted and traced to itself |
| Sorting.ProgressStep | src/sorting.c:9-27 | one outer iteration extends the sorted, traced, stable prefix by one input element; the shift count stays zero iff that prefix is still non-decreasing |
| Sorting.InsertionSort | src/sorting.c:8-28 | list[0..size) becomes the functional insertion sort of its old contents: non-decreasing, a permutation, and the tail untouched; the inner loops move nothing iff the input was already non-decreasing; a ghost origin traces every slot to its input position and equal values keep their input order, so the sort is stable |
| Sorting.NoShiftsSorted | src/sorting.c:15 | for the outer-loop invariant: the prefix so far is sorted iff no shift has happened yet |
| Sorting.NewCounts | src/sorting.c:34-39 | a fresh count array of max_value+1 slots, all zero |
| Sorting.CountValues | src/sorting.c:42-44 | count[v] becomes the number of occurrences of v in list[0..size) |
| Sorting.CumulativeSums | src/sorting.c:47-49 | count[v] becomes the number of elements that are at most v; with every value in range the last count is size |
| Sorting.PlaceOne | src/sorting.c:53-57 | one placement iteration moves the loop invariant from j to j-1 and writes nothing outside output[0..size) |
| Sorting.PlaceLoop | src/sorting.c:52-58 | the placement loop carries the invariant from size-1 down to -1 |
| Sorting.PlaceBackward | src/sorting.c:52-58 | from cumulative counts, the output becomes sorted, a permutation of the list, equal to the insertion sort, and stable with respect to input positions |
| Sorting.CountingSort | src/sorting.c:33-61 | for values in [0, max_value], output[0..size) becomes sorted, a permutation and stable, and list is unchanged |
| DataGen.ReverseArray | src/data_gen.c:18-25 | list[0..size) becomes the reversal of its old contents; for odd size the middle stays put; nothing past size changes |
| DataGen.IntComparisonAsc | src/data_gen.c:30-34 | where a-b does not overflow, the result is negative, zero or positive exactly as a < b, a == b or a > b |
| DataGen.IntComparisonDesc | src/data_gen.c:39-43 | the ascending comparator with its arguments swapped, so the signs are reversed |
| DataGen.ComparatorOrder | src/data_gen.c:61-66 | ordered by the ascending comparator means non-decreasing; by the descending one, non-increasing |
| DataGen.QSort | src/data_gen.c:70 | the library call by its contract: where no comparator subtraction overflows, no later element compares before an earlier one; non-decreasing for the ascending comparator and non-increasing for the descending one; a permutation; nothing past nmemb changed |
| DataGen.Arrangement | src/data_gen.c:56-70 | what generate_data leaves for the draws and the ordering: a sequence of the same length and the same multiset of values as the draws |
| DataGen.ArrangementOrdered | src/data_gen.c:52-70 | SORTED is non-decreasing, REVERSE_SORTED non-increasing, and RANDOM is the draws in draw order |
| DataGen.ArrangementUnique | src/data_gen.c:56-70 | any ordered permutation of the draws is the arrangement, so qsort's contract alone fixes the result |
| DataGen.GenerateData | src/data_gen.c:49-72 | dest[0..size) ends as the arrangement of the draws for the ordering, and only dest[0..size) is written |
| SortingTest.ReverseArray | sorting_test.c:40-49 | list[0..size) becomes its reversal, and the rest is untouched |
| SortingTest.InsertionSort | sorting_test.c:55-68 | the same in-place insertion sort: non-decreasing, a permutation, no shifts iff already sorted, and stable through its ghost origin |
| SortingTest.GenerateData | sorting_test.c:75-94 | a fresh list of size draws, insertion-sorted for SORTED and then reversed for REVERSE_SORTED; it equals the arrangement |
| SortingTest.SizeTableSpec | sorting_test.c:126-129 | the size table has num entries |
| SortingTest.SizeTableIncreasing | sorting_test.c:126-129 | with a positive step the table starts at start_size and is strictly increasing |
| SortingTest.SizeTable | sorting_test.c:126-129 | the loop fills sizes[i] = start_size + i*step for every i < num_sizes |
| SortingTest.MainSizeTable | sorting_test.c:122-129 | main's table has 30 entries from 1000 to 15500, strictly increasing, each a C int |
| SortingTest.BestCaseRepeats | sorting_test.c:137-144 | insertion-sorting the best-case list gives it back, so every repetition times the same sorted input |
| GetResults.HeaderLine | get_results.py:57 | the header line collect_data writes for a run strips to "alg,case" and splits back into the algorithm and the case |
| GetResults.CollectArgs | get_results.py:50-53 | args is [PROG_PATH, alg, case] + ARGS, with "-q" appended exactly when (alg, case) is in QUADRATIC_SCALES |
| GetResults.CollectArgsPerCombination | get_results.py:30-38 | of the five runs, the three quadratic ones get "-q" and the two best cases do not |
| GetResults.Lead | get_results.py:76 | the length of the longest all-whitespace prefix: everything before it is whitespace and the next character is not |
| GetResults.Trail | get_results.py:76 | the length of the longest all-whitespace suffix: everything in it is whitespace and the character before it is not |
| GetResults.Strip | get_results.py:76 | str.strip(): the slice of the line between its leading and trailing whitespace, with whitespace at neither end; empty iff the line is all whitespace |
| GetResults.StripExact | get_results.py:76 | a word with no whitespace at its ends comes back from any surrounding whitespace |
| GetResults.IndexOf | get_results.py:83 | the position of the first separator |
| GetResults.Split | get_results.py:83 | str.split(","): one more field than there are commas, none containing a comma, joining back to the line |
| GetResults.IndexOfJoin | get_results.py:83 | the first separator of joined fields is the one after the first field |
| GetResults.SplitCons | get_results.py:83 | a field without the separator, then the separator, splits off as the first field |
| GetResults.NoSepTail | get_results.py:83 | in separator-free fields, the first field and all the rest are separator-free |
| GetResults.SplitJoin | get_results.py:83 | splitting joined fields that contain no separator gives the fields back |
| GetResults.Keys | get_results.py:107 | the keys of a dict, one per entry, in entry order |
| GetResults.Lookup | get_results.py:107 | a key is missing iff it is not among the dict's keys |
| GetResults.Put | get_results.py:108-110 | assignment keeps the key order: an existing key keeps its position and a new one goes last |
| GetResults.PutLookup | get_results.py:108-110 | after assignment, looking the key up gives the new value, and every other key gives what it gave before |
| GetResults.PutDistinct | get_results.py:108-110 | assignment to a dict whose keys are distinct keeps them distinct |
| GetResults.Store | get_results.py:105-110 | the current header's table, created empty when missing and added last to timings, gets size mapped to time, keeping every other size and the position of a repeated size; other headers' tables are unchanged and the header stays selected |
| GetResults.StoreLookup | get_results.py:105-110 | after the two assignments, the header's table maps size to time and keeps its other sizes, and every other header's table is unchanged |
| GetResults.Step | get_results.py:76-80 | one line of the state machine parse_csv runs: a step that succeeds keeps the state consistent (no timings before a header, only valid combinations, no key twice) and removes no key |
| GetResults.StepFields | get_results.py:82-114 | the same for the fields of a non-blank line: header, data or error |
| GetResults.Run | get_results.py:74 | the state after the lines so far, from no header and no timings, stopping at the first error; every state it reaches is consistent |
| GetResults.Parse | get_results.py:66-116 | what parse_csv returns: on success, timings whose keys are valid (alg, case) combinations, each occurring once |
| GetResults.ParseLine | get_results.py:76-114 | the body of the loop, branch by branch, computes exactly GetResults.Step: blank lines skipped, "Malformed CSV", header selection, "invalid algorithm or case", "Invalid size/time", or storing the data |
| GetResults.RunStep | get_results.py:74 | Run over one more line is one more Step from the state so far, unless an error has already stopped the parse |
| GetResults.ParseCsv | get_results.py:66-116 | the parsing loop returns exactly GetResults.Parse of the lines |
| GetResults.ErrorStops | get_results.py:92-114 | after the first failing line, the result is that error, whatever follows |
| GetResults.CombsPlain | get_results.py:19-33 | every algorithm and case name is non-empty, has no comma and has no whitespace at its ends |
| GetResults.PairStrips | get_results.py:76 | "a,b" with any surrounding whitespace strips back to "a,b" |
| GetResults.PairSplits | get_results.py:83 | "a,b" splits back into a and b |
| GetResults.BlankLineSkipped | get_results.py:76-80 | a blank or whitespace-only line leaves the state unchanged |
| GetResults.NotTwoFieldsMalformed | get_results.py:83-114 | a non-blank line without exactly one comma is "Malformed CSV" |
| GetResults.HeaderSelects | get_results.py:85-87 | each header line written by collect_data selects its (alg, case) and leaves timings unchanged |
| GetResults.CountingAverageInvalid | get_results.py:30-33 | (counting, average) is not a valid combination |
| GetResults.CountingAverageNotHeader | get_results.py:85-93 | so "counting,average" before any header is "Malformed CSV - invalid algorithm or case" |
| GetResults.DataBeforeHeader | get_results.py:91-93 | a line "a,b" with any surrounding whitespace, not a valid combination, arriving before any header, is "Malformed CSV - invalid algorithm or case" |
| GetResults.InvalidData | get_results.py:97-103 | under a header, a line "a,b" with any surrounding whitespace whose size int() or time float() refuses is "Invalid size/time" |
| GetResults.DataStored | get_results.py:105-110 | under a header, a line "a,b" with any surrounding whitespace whose fields parse is Store of int(a) and float(b) under the most recent header |

## Left out

- `random_number` (src/data_gen.c:9-12, sorting_test.c:31-34) uses float
  arithmetic over `random()`. It is an oracle: the draws are an input sequence.
  No range is promised for them, because `r` can reach 1.0 and then the result
  is `max+1`.
- `qsort`'s algorithm (src/data_gen.c:70) is a library call. `DataGen.QSort`
  states only its contract, and its body only shows that the contract can be
  met.
- DataGen.QSort: requires nothing about overflow. The C comparators compute
  `a - b` on `int`, which can overflow for values far apart. The contract is
  stated for numeric order, which is what the comparators give when no
  subtraction overflows (`DataGen.ComparatorOrder`). The comparator-order clause
  holds only under that condition (`DataGen.Comparable`).
- Timing, `clock()`, `srandom(time(NULL))` and the `printf` CSV output of
  sorting_test.c:97-154 are I/O and timing. Only the size table and the
  best-case input are modelled.
- `src/sorting_test.c` is not part of this model. It is a timing driver whose
  calls do not match the prototypes, and its size table duplicates the root
  file's.
- `src/error.c` prints usage and errors only.
- `malloc` and `free` are `new` arrays and garbage collection. The missing NULL
  check at sorting_test.c:76 is not modelled.
- Sizes are `nat`. A negative C `size` skips every loop that runs over `size`,
  and that case is not modelled. The zeroing and prefix-sum loops of
  `counting_sort` run over `max_value` instead. `Sorting.CountingSort` accepts
  `max_value = -1`, which gives an empty count array and so requires an empty
  `list[0..size)`. Below -1, `create_array` would receive a negative length; that case is
  not modelled.
- Sorting.CountingSort: does not model 32-bit overflow of `max_value + 1` or of
  the counts. It also requires `list` and `output` to be different arrays, which
  the C code assumes but never checks.
- sorting_test.c's `float` elements are only compared and moved, and they are
  never NaN. They are modelled as `int`.
- The rest of get_results.py is not modelled: file reading and writing,
  `subprocess`, the LaTeX table, the numpy and scipy regression, and plotting.
  `ParseCsv` takes the file's lines as a sequence.
- `int()` and `float()` are parse oracles, so which strings they accept is not
  modelled.
- GetResults.Strip: removes only the ASCII whitespace of Python 2's `str.strip()`
  (space, tab, newline, carriage return, vertical tab and form feed). The script
  is Python 2, because it passes `dict.keys()` straight to numpy.
- The outer `timings` is a plain `dict`. The model keeps its keys in insertion
  order, which Python 2 does not promise. Lookups do not depend on that order.
- `sys.exit(1)` after the error message is the `Err` result of `ParseCsv`.
- SortingTest.ReverseArray and SortingTest.InsertionSort run the same loops as
  their `src/` counterparts and delegate to them. Reaching the array through a
  `float **` is not modelled.
