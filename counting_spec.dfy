/**
 * The specification of counting_sort's three passes (src/sorting.c):
 * values counted below a bound, and the state of the backward placement
 * pass, with one lemma per pass boundary and per placement step.
 */
module CountingSortSpec {
  /** The number of elements of `s` strictly below `v`. */
  function CountLess(s: seq<int>, v: int): (n: nat)
    ensures n <= |s|
    decreases |s|
  {
    if s == [] then 0 else CountLess(s[..|s| - 1], v) + (if s[|s| - 1] < v then 1 else 0)
  }

  /** Raising the bound by one adds the occurrences of the old bound: the prefix-sum step. */
  lemma {:induction false} CountLessNext(s: seq<int>, v: int)
    ensures CountLess(s, v + 1) == CountLess(s, v) + multiset(s)[v]
    decreases |s|
  {
    if s != [] {
      CountLessNext(s[..|s| - 1], v);
      assert s == s[..|s| - 1] + [s[|s| - 1]];
    }
  }

  /** CountLess grows with its bound. */
  lemma {:induction false} CountLessMono(s: seq<int>, v: int, w: int)
    ensures v <= w ==> CountLess(s, v) <= CountLess(s, w)
    decreases |s|
  {
    if s != [] {
      CountLessMono(s[..|s| - 1], v, w);
    }
  }

  /** Nothing is below a bound that no element goes under. */
  lemma {:induction false} CountLessNone(s: seq<int>, v: int)
    requires forall k :: 0 <= k < |s| ==> v <= s[k]
    ensures CountLess(s, v) == 0
    decreases |s|
  {
    if s != [] {
      CountLessNone(s[..|s| - 1], v);
    }
  }

  /** Everything is below a bound that every element is under. */
  lemma {:induction false} CountLessAll(s: seq<int>, v: int)
    requires forall k :: 0 <= k < |s| ==> s[k] < v
    ensures CountLess(s, v) == |s|
    decreases |s|
  {
    if s != [] {
      CountLessAll(s[..|s| - 1], v);
    }
  }

  /**
   * The values the placement pass has written so far: out[p] for every
   * position p that `origin` marks as written (origin[p] >= 0).
   */
  ghost function Placed(out: seq<int>, origin: seq<int>): multiset<int>
    requires |out| == |origin|
    decreases |out|
  {
    if out == [] then multiset{}
    else
      Placed(out[..|out| - 1], origin[..|out| - 1])
        + (if origin[|out| - 1] >= 0 then multiset{out[|out| - 1]} else multiset{})
  }

  /** Writing v into an unwritten slot adds exactly v to what has been placed. */
  lemma {:induction false} PlacedWrite(out: seq<int>, origin: seq<int>, pos: nat, v: int, j: nat)
    requires |out| == |origin| && pos < |out|
    requires origin[pos] < 0
    ensures Placed(out[pos := v], origin[pos := j]) == Placed(out, origin) + multiset{v}
    decreases |out|
  {
    var n := |out| - 1;
    if pos < n {
      PlacedWrite(out[..n], origin[..n], pos, v, j);
      assert out[pos := v][..n] == out[..n][pos := v];
      assert origin[pos := j][..n] == origin[..n][pos := j];
    } else {
      assert out[pos := v][..n] == out[..n];
      assert origin[pos := j][..n] == origin[..n];
    }
  }

  /** Once as many values are placed as there are slots, every slot is written and the placed values are the whole buffer. */
  lemma {:induction false} PlacedFull(out: seq<int>, origin: seq<int>)
    requires |out| == |origin|
    ensures |Placed(out, origin)| <= |out|
    ensures |Placed(out, origin)| == |out| ==> (forall p :: 0 <= p < |out| ==> origin[p] >= 0) && Placed(out, origin) == multiset(out)
    decreases |out|
  {
    if out != [] {
      var n := |out| - 1;
      PlacedFull(out[..n], origin[..n]);
      assert out == out[..n] + [out[n]];
      if |Placed(out, origin)| == |out| {
        assert origin[n] >= 0;
        forall p | 0 <= p < |out| ensures origin[p] >= 0 {
          if p < n {
            assert origin[..n][p] == origin[p];
          }
        }
      }
    }
  }

  /** Before the placement pass nothing has been placed. */
  lemma {:induction false} PlacedNone(out: seq<int>, origin: seq<int>)
    requires |out| == |origin|
    requires forall p :: 0 <= p < |origin| ==> origin[p] < 0
    ensures Placed(out, origin) == multiset{}
    decreases |out|
  {
    if out != [] {
      PlacedNone(out[..|out| - 1], origin[..|out| - 1]);
    }
  }

  /** Every element of L lies in [0, maxValue]. */
  ghost predicate InRange(L: seq<int>, maxValue: int) {
    forall k :: 0 <= k < |L| ==> 0 <= L[k] <= maxValue
  }

  /** cnt[v] is the first slot of v's block plus the occurrences of v in L[..j+1], still to place. */
  ghost predicate CountsLeft(L: seq<int>, cnt: seq<int>, j: int)
    requires -1 <= j < |L|
  {
    forall v :: 0 <= v < |cnt| ==> cnt[v] == CountLess(L, v) + multiset(L[..j + 1])[v]
  }

  /** A written slot holds an element of L[j+1..], inside the filled tail of its value's block. */
  ghost predicate SlotsWritten(L: seq<int>, cnt: seq<int>, out: seq<int>, origin: seq<int>, j: int)
    requires |out| == |L| && |origin| == |L|
  {
    forall p :: 0 <= p < |L| && origin[p] >= 0 ==>
      j < origin[p] < |L| && out[p] == L[origin[p]] && 0 <= out[p] < |cnt| && cnt[out[p]] <= p < CountLess(L, out[p] + 1)
  }

  /** Written slots that hold equal values hold them in input order. */
  ghost predicate EqualsInOrder(out: seq<int>, origin: seq<int>)
    requires |out| == |origin|
  {
    forall p, q :: 0 <= p < q < |out| && origin[p] >= 0 && origin[q] >= 0 && out[p] == out[q] ==>
      origin[p] < origin[q]
  }

  /** Taking L[j] out of the elements still to place lowers its count by one. */
  lemma StepCounts(L: seq<int>, cnt: seq<int>, j: int)
    requires 0 <= j < |L| && 0 <= L[j] < |cnt|
    requires CountsLeft(L, cnt, j)
    ensures CountsLeft(L, cnt[L[j] := cnt[L[j]] - 1], j - 1)
  {
    assert L[..j + 1] == L[..j] + [L[j]];
  }

}
