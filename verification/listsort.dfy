/** The mergesort on lists of src/tsalgo/listsort.c. A list is modelled by
    the sequence of its contents (the linked structure itself is the subject
    of the LinkedList module); a list of runs is a sequence of sequences.
    Allocation failures, which make the C functions return NULL, are not
    modelled. */
module ListSort {
  import opened Base
  import opened Order

  // ------------------------------------------------------------ list merge

  /** ts_algo_list_merge: two runners walk the lists; an exhausted list
      counts as Greater (take from the second) or Less (take from the
      first), otherwise the comparison decides and only Greater takes from
      the second list. The result is the reference merge in which the first
      list wins ties. */
  method ListMerge<T(!new)>(l1: seq<T>, l2: seq<T>, cmp: (T, T) -> Cmp) returns (r: seq<T>)
    ensures r == Merge(l1, l2, cmp, true)
    ensures |r| == |l1| + |l2| && multiset(r) == multiset(l1) + multiset(l2)
    ensures Comparator(cmp) && Sorted(l1, cmp) && Sorted(l2, cmp) ==> Sorted(r, cmp)
  {
    r := [];
    var runner1: nat, runner2: nat := 0, 0;
    while runner1 < |l1| || runner2 < |l2|
      invariant runner1 <= |l1| && runner2 <= |l2|
      invariant r + Merge(l1[runner1..], l2[runner2..], cmp, true) == Merge(l1, l2, cmp, true)
      decreases |l1| + |l2| - runner1 - runner2
    {
      var c: Cmp;
      if runner1 == |l1| {
        c := Greater;
      } else if runner2 == |l2| {
        c := Less;
      } else {
        c := cmp(l1[runner1], l2[runner2]);
      }
      ghost var a, b := l1[runner1..], l2[runner2..];
      MergeHead(a, b, cmp);
      if c == Greater {
        assert b[1..] == l2[runner2 + 1..];
        r := r + [l2[runner2]];
        runner2 := runner2 + 1;
      } else {
        assert a[1..] == l1[runner1 + 1..];
        r := r + [l1[runner1]];
        runner1 := runner1 + 1;
      }
    }
    MergePermutes(l1, l2, cmp, true);
    if Comparator(cmp) && Sorted(l1, cmp) && Sorted(l2, cmp) {
      MergeSorted(l1, l2, cmp, true);
    }
  }

  /** The first step of a merge in which the first input wins ties. */
  lemma MergeHead<T(!new)>(a: seq<T>, b: seq<T>, cmp: (T, T) -> Cmp)
    requires |a| + |b| > 0
    ensures (|a| == 0 || (|b| > 0 && cmp(a[0], b[0]) == Greater)) ==>
              Merge(a, b, cmp, true) == [b[0]] + Merge(a, b[1..], cmp, true)
    ensures (|b| == 0 || (|a| > 0 && cmp(a[0], b[0]) != Greater)) ==>
              Merge(a, b, cmp, true) == [a[0]] + Merge(a[1..], b, cmp, true)
  {
    if |a| == 0 {
      assert Merge(a, b[1..], cmp, true) == b[1..];
      assert b == [b[0]] + b[1..];
    } else if |b| == 0 {
      assert Merge(a[1..], b, cmp, true) == a[1..];
      assert a == [a[0]] + a[1..];
    }
  }

  // ------------------------------------------------------------ run counting

  /** countRuns as written: it reads the successor of the head before
      looking at the list, so an empty list is a NULL dereference (None);
      otherwise it counts one run plus one per neighbouring pair that
      compares Greater. */
  method CountRunsAsWritten<T(!new)>(list: seq<T>, cmp: (T, T) -> Cmp) returns (runs: Option<nat>)
    ensures runs.None? <==> |list| == 0
    ensures runs.Some? ==> runs.value == Stepdowns(list, cmp) + 1
  {
    if |list| == 0 {
      return None;
    }
    var n := 1;
    var tmp: nat := 0;
    var runner: nat := 1;
    while runner < |list|
      invariant runner == tmp + 1 <= |list|
      invariant n == Stepdowns(list[..runner], cmp) + 1
    {
      assert list[..runner + 1][..runner] == list[..runner];
      if cmp(list[tmp], list[runner]) == Greater {
        n := n + 1;
      }
      tmp, runner := runner, runner + 1;
    }
    assert list[..runner] == list;
    return Some(n);
  }

  /** countRuns as evidently intended: an empty list has no runs, so that
      ts_algo_list_sort can answer it with NULL. */
  method CountRuns<T(!new)>(list: seq<T>, cmp: (T, T) -> Cmp) returns (runs: nat)
    ensures runs == 0 <==> |list| == 0
    ensures |list| > 0 ==> runs == Stepdowns(list, cmp) + 1
    ensures |list| > 0 ==> (runs == 1 <==> Ascending(list, cmp))
  {
    if |list| == 0 {
      return 0;
    }
    var r := CountRunsAsWritten(list, cmp);
    runs := r.value;
    StepdownsZero(list, cmp);
  }

  // ------------------------------------------------------------ run splitting

  /** Every run is non-empty and has no descent. */
  ghost predicate RunsAscend<T(!new)>(runs: seq<seq<T>>, cmp: (T, T) -> Cmp) {
    forall k :: 0 <= k < |runs| ==> |runs[k]| > 0 && Ascending(runs[k], cmp)
  }

  /** The state of splitRuns before the element at `tmp` is handled: the
      closed runs and the open run hold the elements before it, the open run
      can take it, and each closed run ended at a stepdown. */
  ghost predicate SplitState<T(!new)>(list: seq<T>, runs: seq<seq<T>>, run: seq<T>, tmp: nat, cmp: (T, T) -> Cmp) {
    && tmp < |list|
    && Concat(runs) + run == list[..tmp]
    && RunsAscend(runs, cmp)
    && Ascending(run + [list[tmp]], cmp)
    && |runs| == Stepdowns(list[..tmp + 1], cmp)
  }

  /** A stepdown after `tmp` closes the open run. */
  lemma SplitClose<T(!new)>(list: seq<T>, runs: seq<seq<T>>, run: seq<T>, tmp: nat, cmp: (T, T) -> Cmp)
    requires SplitState(list, runs, run, tmp, cmp) && tmp + 1 < |list|
    requires cmp(list[tmp], list[tmp + 1]) == Greater
    ensures SplitState(list, runs + [run + [list[tmp]]], [], tmp + 1, cmp)
  {
    var runs' := runs + [run + [list[tmp]]];
    assert runs'[..|runs'| - 1] == runs;
    assert list[..tmp + 1] == list[..tmp] + [list[tmp]];
    assert list[..tmp + 2][..tmp + 1] == list[..tmp + 1];
    assert Ascending([list[tmp + 1]], cmp);
  }

  /** Without a stepdown the element at `tmp` extends the open run. */
  lemma SplitExtend<T(!new)>(list: seq<T>, runs: seq<seq<T>>, run: seq<T>, tmp: nat, cmp: (T, T) -> Cmp)
    requires SplitState(list, runs, run, tmp, cmp) && tmp + 1 < |list|
    requires cmp(list[tmp], list[tmp + 1]) != Greater
    ensures SplitState(list, runs, run + [list[tmp]], tmp + 1, cmp)
  {
    assert list[..tmp + 1] == list[..tmp] + [list[tmp]];
    assert list[..tmp + 2][..tmp + 1] == list[..tmp + 1];
    AscendingStep(run + [list[tmp]], list[tmp + 1], cmp);
  }

  /** splitRuns: the element at `tmp` joins the open run, and a stepdown to
      the next element closes that run; the last element closes the last
      run. The runs concatenate to the list, each is non-empty and
      non-descending, and there are as many as countRuns counts. */
  method SplitRuns<T(!new)>(list: seq<T>, cmp: (T, T) -> Cmp) returns (runs: seq<seq<T>>)
    requires |list| > 0
    ensures Concat(runs) == list
    ensures RunsAscend(runs, cmp)
    ensures |runs| == Stepdowns(list, cmp) + 1
  {
    runs := [];
    var run: seq<T> := [];
    var tmp: nat := 0;
    assert list[..1] == [list[0]];
    while tmp + 1 < |list|
      invariant SplitState(list, runs, run, tmp, cmp)
      decreases |list| - tmp
    {
      if cmp(list[tmp], list[tmp + 1]) == Greater {
        SplitClose(list, runs, run, tmp, cmp);
        runs, run := runs + [run + [list[tmp]]], [];
      } else {
        SplitExtend(list, runs, run, tmp, cmp);
        run := run + [list[tmp]];
      }
      tmp := tmp + 1;
    }
    var last := run + [list[tmp]];
    runs := runs + [last];
    assert runs[..|runs| - 1] + [last] == runs;
    assert list[..tmp + 1] == list;
    assert list[..tmp] + [list[tmp]] == list;
  }

  /** A non-descending sequence stays so when an element not below its last
      one is added. */
  lemma AscendingStep<T(!new)>(s: seq<T>, x: T, cmp: (T, T) -> Cmp)
    requires |s| > 0 && Ascending(s, cmp)
    requires cmp(s[|s| - 1], x) != Greater
    ensures Ascending(s + [x], cmp)
  {
    var t := s + [x];
    forall i | 0 < i < |t| ensures !Descent(t, i, cmp) {
      if i < |s| {
        assert !Descent(s, i, cmp);
      }
    }
  }

  // ------------------------------------------------------------ run merging

  /** One sweep of mergeRuns over the list of runs (the reference): the
      first two runs are merged, the first winning ties, and the sweep
      continues after them; an odd trailing run stays in place. */
  function Sweep<T(!new)>(runs: seq<seq<T>>, cmp: (T, T) -> Cmp): (r: seq<seq<T>>)
    decreases |runs|
  {
    if |runs| < 2 then runs
    else [Merge(runs[0], runs[1], cmp, true)] + Sweep(runs[2..], cmp)
  }

  /** A sweep halves the number of runs, rounding up. */
  lemma {:induction false} SweepHalves<T(!new)>(runs: seq<seq<T>>, cmp: (T, T) -> Cmp)
    ensures |Sweep(runs, cmp)| == (|runs| + 1) / 2
    decreases |runs|
  {
    if |runs| >= 2 {
      SweepHalves(runs[2..], cmp);
    }
  }

  /** A sweep keeps the elements. */
  lemma {:induction false} SweepPermutes<T(!new)>(runs: seq<seq<T>>, cmp: (T, T) -> Cmp)
    ensures multiset(Concat(Sweep(runs, cmp))) == multiset(Concat(runs))
    decreases |runs|
  {
    if |runs| >= 2 {
      var a, b, rest := runs[0], runs[1], runs[2..];
      SweepPermutes(rest, cmp);
      MergePermutes(a, b, cmp, true);
      ConcatCons(Merge(a, b, cmp, true), Sweep(rest, cmp));
      ConcatCons(b, rest);
      ConcatCons(a, [b] + rest);
      assert runs == [a] + ([b] + rest);
    }
  }

  /** Every run is sorted. */
  ghost predicate RunsSorted<T(!new)>(runs: seq<seq<T>>, cmp: (T, T) -> Cmp) {
    forall k :: 0 <= k < |runs| ==> Sorted(runs[k], cmp)
  }

  /** A sweep over sorted runs yields sorted runs. */
  lemma {:induction false} SweepSorted<T(!new)>(runs: seq<seq<T>>, cmp: (T, T) -> Cmp)
    requires Comparator(cmp) && RunsSorted(runs, cmp)
    ensures RunsSorted(Sweep(runs, cmp), cmp)
    decreases |runs|
  {
    if |runs| >= 2 {
      var rest := runs[2..];
      assert RunsSorted(rest, cmp) by {
        forall k | 0 <= k < |rest| ensures Sorted(rest[k], cmp) {
          assert rest[k] == runs[k + 2];
        }
      }
      SweepSorted(rest, cmp);
      assert Sorted(runs[0], cmp) && Sorted(runs[1], cmp);
      MergeSorted(runs[0], runs[1], cmp, true);
    }
  }

  /** The loop of mergeRuns: runner1 and runner2 walk the list of runs in
      pairs; each pair is merged, the first run removed and the merged list
      put in place of the second. */
  method MergeSweep<T(!new)>(runs: seq<seq<T>>, cmp: (T, T) -> Cmp) returns (out: seq<seq<T>>)
    requires |runs| >= 2
    ensures out == Sweep(runs, cmp)
  {
    out := [];
    var runner1: nat := 0;
    while runner1 + 1 < |runs|
      invariant runner1 <= |runs|
      invariant out + Sweep(runs[runner1..], cmp) == Sweep(runs, cmp)
      decreases |runs| - runner1
    {
      var r := ListMerge(runs[runner1], runs[runner1 + 1], cmp);
      var rest := runs[runner1..];
      assert rest[2..] == runs[runner1 + 2..];
      assert Sweep(rest, cmp) == [r] + Sweep(runs[runner1 + 2..], cmp);
      out := out + [r];
      runner1 := runner1 + 2;
    }
    if runner1 < |runs| {
      out := out + [runs[runner1]];
      assert runs[runner1..] == [runs[runner1]];
    } else {
      assert Sweep(runs[runner1..], cmp) == [];
    }
  }

  /** mergeRuns: sweeps are repeated until one run is left, which is the
      sorted list. */
  method MergeRuns<T(!new)>(runs: seq<seq<T>>, cmp: (T, T) -> Cmp) returns (r: seq<T>)
    requires |runs| >= 1
    ensures multiset(r) == multiset(Concat(runs))
    ensures Comparator(cmp) && RunsSorted(runs, cmp) ==> Sorted(r, cmp)
    decreases |runs|
  {
    if |runs| == 1 {
      assert runs == [] + [runs[0]];
      return runs[0];
    }
    var next := MergeSweep(runs, cmp);
    SweepHalves(runs, cmp);
    SweepPermutes(runs, cmp);
    if Comparator(cmp) && RunsSorted(runs, cmp) {
      SweepSorted(runs, cmp);
    }
    r := MergeRuns(next, cmp);
  }

  /** Runs of a non-descending split are sorted. */
  lemma AscendingRunsSorted<T(!new)>(runs: seq<seq<T>>, cmp: (T, T) -> Cmp)
    requires Comparator(cmp) && RunsAscend(runs, cmp)
    ensures RunsSorted(runs, cmp)
  {
    forall k | 0 <= k < |runs| ensures Sorted(runs[k], cmp) {
      AscendingIsSorted(runs[k], cmp);
    }
  }

  // ------------------------------------------------------------ sort

  /** A list whose runs exceed half its length has a reversal with at most
      half its length plus one runs: the sort's reverse branch recurses at
      most once. */
  lemma ReversedFewRuns<T(!new)>(list: seq<T>, cmp: (T, T) -> Cmp)
    requires Comparator(cmp) && |list| > 0
    requires Stepdowns(list, cmp) + 1 > |list| / 2 + 1
    ensures Stepdowns(Reverse(list), cmp) + 1 <= |Reverse(list)| / 2 + 1
  {
    ReverseStepdowns(list, cmp);
  }

  /** ts_algo_list_sort: NULL for an empty list (with the corrected run
      count), a copy for a single run, the sort of the reversed list when
      the runs exceed half the length plus one, and otherwise the merge of
      the split runs. The comparator must be a consistent order: with an
      inconsistent one the reverse branch can recurse without end. */
  method Sort<T(!new)>(list: seq<T>, cmp: (T, T) -> Cmp) returns (r: Option<seq<T>>)
    requires Comparator(cmp)
    ensures r.None? <==> |list| == 0
    ensures r.Some? ==> |r.value| == |list| && multiset(r.value) == multiset(list)
    ensures r.Some? ==> Sorted(r.value, cmp)
    ensures Ascending(list, cmp) && |list| > 0 ==> r == Some(list)
    decreases if |list| > 0 && Stepdowns(list, cmp) + 1 > |list| / 2 + 1 then 1 else 0
  {
    var runs := CountRuns(list, cmp);
    if runs == 0 {
      return None;
    }
    if runs == 1 {
      AscendingIsSorted(list, cmp);
      return Some(list);
    }
    if runs > |list| / 2 + 1 {
      var x := Reverse(list);
      ReversedFewRuns(list, cmp);
      ReversePermutes(list);
      StepdownsZero(list, cmp);
      r := Sort(x, cmp);
      return;
    }
    var x := SplitRuns(list, cmp);
    AscendingRunsSorted(x, cmp);
    var merged := MergeRuns(x, cmp);
    StepdownsZero(list, cmp);
    return Some(merged);
  }
}
