/**
 * The state of counting_sort's backward placement pass (src/sorting.c)
 * as one invariant over the input, the count array, the output buffer and
 * the ghost record of where each written value came from; lemmas for its
 * start, one step, and its end.
 */
module Placement {
  import opened Sequences
  import opened InsertionSortSpec
  import opened CountingSortSpec

  /**
   * The state of counting_sort's placement pass after the elements
   * L[j+1..] have been placed: cnt[v] counts the elements below v plus the
   * occurrences of v still to place; a written slot p holds the element at
   * input position origin[p], inside the free part of its value's block
   * [CountLess(L, v), CountLess(L, v + 1)); equal values sit in input order;
   * and the written slots hold exactly L[j+1..].
   */
  ghost predicate PlaceInv(L: seq<int>, maxValue: int, cnt: seq<int>, out: seq<int>, origin: seq<int>, j: int) {
    && |cnt| == maxValue + 1 && |out| == |L| && |origin| == |L| && -1 <= j < |L|
    && InRange(L, maxValue)
    && CountsLeft(L, cnt, j)
    && SlotsWritten(L, cnt, out, origin, j)
    && EqualsInOrder(out, origin)
    && Placed(out, origin) == multiset(L[j + 1..])
  }

  /** The slot the placement pass writes for L[j] is in range and still free. */
  lemma PlaceSlot(L: seq<int>, cnt: seq<int>, out: seq<int>, origin: seq<int>, j: int)
    requires |out| == |L| && |origin| == |L| && 0 <= j < |L| && 0 <= L[j] < |cnt|
    requires CountsLeft(L, cnt, j) && SlotsWritten(L, cnt, out, origin, j)
    ensures 0 <= cnt[L[j]] - 1 < CountLess(L, L[j] + 1) <= |L|
    ensures forall q :: 0 <= q < |L| && origin[q] >= 0 ==> q != cnt[L[j]] - 1
    ensures forall q :: 0 <= q < |L| && origin[q] >= 0 && out[q] == L[j] ==> q > cnt[L[j]] - 1
  {
    var v := L[j];
    var pos := cnt[v] - 1;
    assert cnt[v] == CountLess(L, v) + multiset(L[..j + 1])[v];
    assert 1 <= multiset(L[..j + 1])[v] <= multiset(L)[v] by {
      assert L == L[..j + 1] + L[j + 1..];
      assert L[j] in multiset(L[..j + 1]);
    }
    CountLessNext(L, v);
    forall q | 0 <= q < |L| && origin[q] >= 0 ensures q != pos && (out[q] == v ==> q > pos) {
      var w := out[q];
      if w < v {
        CountLessMono(L, w + 1, v);
      } else if w > v {
        CountLessMono(L, v + 1, w);
        assert cnt[w] >= CountLess(L, w);
      }
    }
  }

  /** Writing L[j] at the slot below its count keeps every written slot inside its block. */
  lemma StepSlots(L: seq<int>, cnt: seq<int>, out: seq<int>, origin: seq<int>, j: int)
    requires |out| == |L| && |origin| == |L| && 0 <= j < |L| && 0 <= L[j] < |cnt|
    requires SlotsWritten(L, cnt, out, origin, j)
    requires 0 <= cnt[L[j]] - 1 < CountLess(L, L[j] + 1)
    ensures SlotsWritten(L, cnt[L[j] := cnt[L[j]] - 1], out[cnt[L[j]] - 1 := L[j]], origin[cnt[L[j]] - 1 := j], j - 1)
  {
    var v := L[j];
    var pos := cnt[v] - 1;
    var cnt', out', origin' := cnt[v := pos], out[pos := v], origin[pos := j];
    forall p | 0 <= p < |L| && origin'[p] >= 0
      ensures j - 1 < origin'[p] < |L| && out'[p] == L[origin'[p]] && 0 <= out'[p] < |cnt'|
        && cnt'[out'[p]] <= p < CountLess(L, out'[p] + 1)
    {
      if p != pos {
        assert origin'[p] == origin[p] && out'[p] == out[p];
      }
    }
  }

  /** The slot written for L[j] lies below every written slot holding the same value. */
  lemma StepOrder(L: seq<int>, maxValue: int, cnt: seq<int>, out: seq<int>, origin: seq<int>, j: int)
    requires PlaceInv(L, maxValue, cnt, out, origin, j) && 0 <= j
    requires 0 <= cnt[L[j]] - 1 < |L|
    requires forall q :: 0 <= q < |L| && origin[q] >= 0 && out[q] == L[j] ==> q > cnt[L[j]] - 1
    ensures EqualsInOrder(out[cnt[L[j]] - 1 := L[j]], origin[cnt[L[j]] - 1 := j])
  {
  }

  /** One iteration of the placement pass keeps PlaceInv, one position further back. */
  lemma PlaceStep(L: seq<int>, maxValue: int, cnt: seq<int>, out: seq<int>, origin: seq<int>, j: int)
    requires PlaceInv(L, maxValue, cnt, out, origin, j) && 0 <= j
    ensures 0 <= cnt[L[j]] - 1 < |L|
    ensures PlaceInv(L, maxValue, cnt[L[j] := cnt[L[j]] - 1], out[cnt[L[j]] - 1 := L[j]],
                     origin[cnt[L[j]] - 1 := j], j - 1)
  {
    var v := L[j];
    var pos := cnt[v] - 1;
    PlaceSlot(L, cnt, out, origin, j);
    StepCounts(L, cnt, j);
    StepSlots(L, cnt, out, origin, j);
    StepOrder(L, maxValue, cnt, out, origin, j);
    PlacedWrite(out, origin, pos, v, j);
    assert L[j..] == [L[j]] + L[j + 1..];
  }

  /**
   * When every element is placed, the buffer is sorted, a permutation of L,
   * equal to what insertion sort produces, and stable.
   */
  lemma PlaceDone(L: seq<int>, maxValue: int, cnt: seq<int>, out: seq<int>, origin: seq<int>)
    requires PlaceInv(L, maxValue, cnt, out, origin, -1)
    ensures Sorted(out)
    ensures multiset(out) == multiset(L)
    ensures out == InsertionSortBy(L, Identity)
    ensures forall p :: 0 <= p < |L| ==> 0 <= origin[p] < |L| && out[p] == L[origin[p]]
    ensures forall p, q :: 0 <= p < q < |L| && out[p] == out[q] ==> origin[p] < origin[q]
  {
    assert L[0..] == L;
    PlacedFull(out, origin);
    forall p, q | 0 <= p < q < |out| ensures out[p] <= out[q] {
      CountLessMono(L, out[q] + 1, out[p]);
    }
    InsertionSortSorted(L, Identity);
    SortedByIdentity(InsertionSortBy(L, Identity));
    InsertionSortPermutation(L, Identity);
    SortedUnique(out, InsertionSortBy(L, Identity));
  }

  /** Before the placement pass: the cumulative counts satisfy PlaceInv with nothing placed. */
  lemma PlaceStart(L: seq<int>, maxValue: int, cnt: seq<int>, out: seq<int>, origin: seq<int>)
    requires |cnt| == maxValue + 1 && |out| == |L| && origin == seq(|L|, _ => -1)
    requires forall k :: 0 <= k < |L| ==> 0 <= L[k] <= maxValue
    requires forall v :: 0 <= v <= maxValue ==> cnt[v] == CountLess(L, v + 1)
    ensures PlaceInv(L, maxValue, cnt, out, origin, |L| - 1)
  {
    assert L[..|L|] == L;
    forall v | 0 <= v <= maxValue ensures cnt[v] == CountLess(L, v) + multiset(L[..|L|])[v] {
      CountLessNext(L, v);
    }
    assert CountsLeft(L, cnt, |L| - 1);
    assert forall p :: 0 <= p < |L| ==> origin[p] == -1;
    assert SlotsWritten(L, cnt, out, origin, |L| - 1) && EqualsInOrder(out, origin);
    PlacedNone(out, origin);
    assert L[|L|..] == [];
  }
}
