/** Comparison results, the ordering laws a comparison callback is expected to
    obey, and the notions of sortedness, run counting, reversal and merging
    that the buffer sort, the file sort and the list sort all share. */
module Order {

  /** The result of a comparison callback (ts_algo_cmp_t in include/tsalgo/types.h). */
  datatype Cmp = Less | Equal | Greater

  /** The laws a comparison callback must obey for the sorts to sort: it is a
      total preorder. `Less` and `Greater` mirror each other, and "not greater"
      is transitive. */
  ghost predicate Comparator<T(!new)>(cmp: (T, T) -> Cmp) {
    && (forall a, b :: cmp(a, b) == Less <==> cmp(b, a) == Greater)
    && (forall a, b, c :: Le(cmp, a, b) && Le(cmp, b, c) ==> Le(cmp, a, c))
  }

  /** `a` is not greater than `b`. Transitivity is stated on this name so that
      it is applied only where a proof asks for it (see `LeTrans`). */
  ghost predicate Le<T>(cmp: (T, T) -> Cmp, a: T, b: T) {
    cmp(a, b) != Greater
  }

  /** "Not greater" is transitive. */
  lemma LeTrans<T(!new)>(cmp: (T, T) -> Cmp, a: T, b: T, c: T)
    requires Comparator(cmp)
    requires cmp(a, b) != Greater && cmp(b, c) != Greater
    ensures cmp(a, c) != Greater
  {
    assert Le(cmp, a, b) && Le(cmp, b, c);
  }

  /** Every element compares equal to itself, and equality is symmetric. */
  lemma ComparatorEqual<T(!new)>(cmp: (T, T) -> Cmp, a: T, b: T)
    requires Comparator(cmp)
    ensures cmp(a, a) == Equal
    ensures cmp(a, b) == Equal <==> cmp(b, a) == Equal
  {
  }

  /** A strict step followed by a non-strict one is strict. */
  lemma LessTrans<T(!new)>(cmp: (T, T) -> Cmp, a: T, b: T, c: T)
    requires Comparator(cmp)
    requires (cmp(a, b) == Less && cmp(b, c) != Greater) || (cmp(a, b) != Greater && cmp(b, c) == Less)
    ensures cmp(a, c) == Less
  {
    if cmp(a, c) != Less {
      if cmp(a, b) == Less {
        LeTrans(cmp, b, c, a);
      } else {
        LeTrans(cmp, c, a, b);
      }
    }
  }

  /** Two elements equivalent to the same key are equivalent to each other. */
  lemma EqualTrans<T(!new)>(cmp: (T, T) -> Cmp, a: T, b: T, k: T)
    requires Comparator(cmp)
    requires cmp(a, k) == Equal && cmp(b, k) == Equal
    ensures cmp(a, b) == Equal
  {
    ComparatorEqual(cmp, b, k);
    LeTrans(cmp, a, k, b);
    LeTrans(cmp, b, k, a);
  }

  /** Every pair of positions is in order. */
  ghost predicate Sorted<T(!new)>(s: seq<T>, cmp: (T, T) -> Cmp) {
    forall i, j :: 0 <= i < j < |s| ==> cmp(s[i], s[j]) != Greater
  }

  /** The elements at `i - 1` and `i` form a descent. */
  predicate Descent<T(!new)>(s: seq<T>, i: nat, cmp: (T, T) -> Cmp) {
    0 < i < |s| && cmp(s[i - 1], s[i]) == Greater
  }

  /** No neighbouring pair descends: the check the C code performs. */
  predicate Ascending<T(!new)>(s: seq<T>, cmp: (T, T) -> Cmp) {
    forall i :: 0 < i < |s| ==> !Descent(s, i, cmp)
  }

  lemma {:induction false} AscendingPair<T(!new)>(s: seq<T>, cmp: (T, T) -> Cmp, i: nat, j: nat)
    requires Comparator(cmp) && Ascending(s, cmp)
    requires i < j < |s|
    ensures cmp(s[i], s[j]) != Greater
    decreases j - i
  {
    assert !Descent(s, j, cmp);
    if i + 1 < j {
      AscendingPair(s, cmp, i, j - 1);
      LeTrans(cmp, s[i], s[j - 1], s[j]);
    }
  }

  /** An ascending prefix grows by one element when no descent follows it. */
  lemma AscendingExtend<T(!new)>(s: seq<T>, n: nat, cmp: (T, T) -> Cmp)
    requires n < |s| && Ascending(s[..n], cmp)
    requires n == 0 || !Descent(s, n, cmp)
    ensures Ascending(s[..n + 1], cmp)
  {
    var t := s[..n + 1];
    forall i | 0 < i < |t| ensures !Descent(t, i, cmp) {
      if i < n {
        assert !Descent(s[..n], i, cmp);
      }
    }
  }

  /** Under the comparator laws, checking neighbours is the same as checking all pairs. */
  lemma AscendingIsSorted<T(!new)>(s: seq<T>, cmp: (T, T) -> Cmp)
    requires Comparator(cmp)
    ensures Ascending(s, cmp) <==> Sorted(s, cmp)
  {
    if Ascending(s, cmp) {
      forall i, j | 0 <= i < j < |s|
        ensures cmp(s[i], s[j]) != Greater
      {
        AscendingPair(s, cmp, i, j);
      }
    }
  }

  /** The number of neighbouring pairs that descend. A sequence of n elements
      and d descents consists of d + 1 maximal ascending runs. */
  function Stepdowns<T(!new)>(s: seq<T>, cmp: (T, T) -> Cmp): nat {
    if |s| < 2 then 0
    else Stepdowns(s[..|s| - 1], cmp) + (if cmp(s[|s| - 2], s[|s| - 1]) == Greater then 1 else 0)
  }

  /** Counting descents from the front gives the same number. */
  lemma {:induction false} StepdownsFront<T(!new)>(s: seq<T>, cmp: (T, T) -> Cmp)
    requires |s| >= 2
    ensures Stepdowns(s, cmp) == (if cmp(s[0], s[1]) == Greater then 1 else 0) + Stepdowns(s[1..], cmp)
    decreases |s|
  {
    if |s| > 2 {
      StepdownsFront(s[..|s| - 1], cmp);
      assert s[..|s| - 1][1..] == s[1..][..|s[1..]| - 1];
    }
  }

  /** No descents means ascending, and conversely. */
  lemma {:induction false} StepdownsZero<T(!new)>(s: seq<T>, cmp: (T, T) -> Cmp)
    ensures Stepdowns(s, cmp) == 0 <==> Ascending(s, cmp)
    decreases |s|
  {
    if |s| >= 2 {
      var p := s[..|s| - 1];
      StepdownsZero(p, cmp);
      if Ascending(s, cmp) {
        assert Ascending(p, cmp) by {
          forall i | 0 < i < |p| ensures !Descent(p, i, cmp) {
            assert p[i - 1] == s[i - 1] && p[i] == s[i];
            assert !Descent(s, i, cmp);
          }
        }
        assert !Descent(s, |s| - 1, cmp);
      }
      if Stepdowns(s, cmp) == 0 {
        forall i | 0 < i < |s| ensures !Descent(s, i, cmp) {
          if i < |s| - 1 {
            assert p[i - 1] == s[i - 1] && p[i] == s[i];
            assert !Descent(p, i, cmp);
          }
        }
      }
    }
  }

  /** Descents of a sequence split at a position: those left of it, the one
      across it, and those right of it. */
  lemma {:induction false} StepdownsSplit<T(!new)>(s: seq<T>, cmp: (T, T) -> Cmp, i: nat)
    requires 0 < i < |s|
    ensures Stepdowns(s, cmp)
         == Stepdowns(s[..i], cmp) + (if cmp(s[i - 1], s[i]) == Greater then 1 else 0) + Stepdowns(s[i..], cmp)
    decreases |s|
  {
    var p := s[..|s| - 1];
    if i + 1 < |s| {
      StepdownsSplit(p, cmp, i);
      assert p[..i] == s[..i];
      assert p[i..] == s[i..][..|s[i..]| - 1];
    } else {
      assert p == s[..i];
    }
  }

  /** The sequence read backwards. */
  function Reverse<T(!new)>(s: seq<T>): (r: seq<T>)
    ensures |r| == |s|
    ensures forall i :: 0 <= i < |s| ==> r[i] == s[|s| - 1 - i]
  {
    if |s| == 0 then [] else [s[|s| - 1]] + Reverse(s[..|s| - 1])
  }

  /** Reversal undoes itself. */
  lemma ReverseReverse<T(!new)>(s: seq<T>)
    ensures Reverse(Reverse(s)) == s
  {
    var r := Reverse(Reverse(s));
    assert forall i :: 0 <= i < |s| ==> r[i] == s[i];
  }

  /** Reversal keeps the elements. */
  lemma {:induction false} ReversePermutes<T(!new)>(s: seq<T>)
    ensures multiset(Reverse(s)) == multiset(s)
    decreases |s|
  {
    if |s| > 0 {
      var p := s[..|s| - 1];
      ReversePermutes(p);
      assert s == p + [s[|s| - 1]];
    }
  }

  /** A descent read backwards is an ascent, so a sequence and its reversal
      together have at most one descent per neighbouring pair. */
  lemma {:induction false} ReverseStepdowns<T(!new)>(s: seq<T>, cmp: (T, T) -> Cmp)
    requires Comparator(cmp)
    requires |s| > 0
    ensures Stepdowns(Reverse(s), cmp) + Stepdowns(s, cmp) <= |s| - 1
    decreases |s|
  {
    if |s| >= 2 {
      var n := |s|;
      var p := s[..n - 1];
      ReverseStepdowns(p, cmp);
      var r := Reverse(s);
      StepdownsFront(r, cmp);
      assert r[1..] == Reverse(p);
      assert r[0] == s[n - 1] && r[1] == s[n - 2];
    }
  }

  /** The elements of a sequence of sequences, in order: the records of
      the blocks a merge writes, or of the runs a sort splits a list into. */
  function Concat<T>(parts: seq<seq<T>>): seq<T> {
    if |parts| == 0 then [] else Concat(parts[..|parts| - 1]) + parts[|parts| - 1]
  }

  /** Concatenation also peels off the first part. */
  lemma {:induction false} ConcatCons<T>(a: seq<T>, rest: seq<seq<T>>)
    ensures Concat([a] + rest) == a + Concat(rest)
    decreases |rest|
  {
    if |rest| > 0 {
      var init := rest[..|rest| - 1];
      ConcatCons(a, init);
      assert ([a] + rest)[..|rest|] == [a] + init;
    }
  }

  /** Whether a merge takes the head of its first input given the comparison
      of the two heads; `firstOnEqual` says which input wins ties. */
  predicate TakesFirst(c: Cmp, firstOnEqual: bool) {
    c == Less || (firstOnEqual && c == Equal)
  }

  /** The merge of two sequences: repeatedly take the smaller head. The
      reference definition every merge loop of the library is proved equal to. */
  function Merge<T(!new)>(a: seq<T>, b: seq<T>, cmp: (T, T) -> Cmp, firstOnEqual: bool): (r: seq<T>)
    ensures |r| == |a| + |b|
    decreases |a| + |b|
  {
    if |a| == 0 then b
    else if |b| == 0 then a
    else if TakesFirst(cmp(a[0], b[0]), firstOnEqual) then [a[0]] + Merge(a[1..], b, cmp, firstOnEqual)
    else [b[0]] + Merge(a, b[1..], cmp, firstOnEqual)
  }

  /** A merge is a permutation of its two inputs together. */
  lemma {:induction false} MergePermutes<T(!new)>(a: seq<T>, b: seq<T>, cmp: (T, T) -> Cmp, firstOnEqual: bool)
    ensures multiset(Merge(a, b, cmp, firstOnEqual)) == multiset(a) + multiset(b)
    decreases |a| + |b|
  {
    if |a| == 0 || |b| == 0 {
    } else if TakesFirst(cmp(a[0], b[0]), firstOnEqual) {
      MergePermutes(a[1..], b, cmp, firstOnEqual);
      assert a == [a[0]] + a[1..];
    } else {
      MergePermutes(a, b[1..], cmp, firstOnEqual);
      assert b == [b[0]] + b[1..];
    }
  }

  /** `x` is not greater than any element of `s`. */
  ghost predicate Below<T(!new)>(x: T, s: seq<T>, cmp: (T, T) -> Cmp) {
    forall y :: y in s ==> cmp(x, y) != Greater
  }

  lemma SortedCons<T(!new)>(x: T, s: seq<T>, cmp: (T, T) -> Cmp)
    requires Sorted(s, cmp) && Below(x, s, cmp)
    ensures Sorted([x] + s, cmp)
  {
    var t := [x] + s;
    forall i, j | 0 <= i < j < |t| ensures cmp(t[i], t[j]) != Greater {
      if i > 0 {
        assert t[i] == s[i - 1] && t[j] == s[j - 1];
      } else {
        assert t[j] == s[j - 1] && t[j] in s;
      }
    }
  }

  lemma BelowSorted<T(!new)>(x: T, s: seq<T>, cmp: (T, T) -> Cmp)
    requires Comparator(cmp) && Sorted(s, cmp)
    requires |s| > 0 && cmp(x, s[0]) != Greater
    ensures Below(x, s, cmp)
  {
    forall y | y in s ensures cmp(x, y) != Greater {
      var j :| 0 <= j < |s| && s[j] == y;
      if j > 0 {
        LeTrans(cmp, x, s[0], s[j]);
      }
    }
  }

  lemma BelowMerge<T(!new)>(x: T, a: seq<T>, b: seq<T>, cmp: (T, T) -> Cmp, firstOnEqual: bool)
    requires Below(x, a, cmp) && Below(x, b, cmp)
    ensures Below(x, Merge(a, b, cmp, firstOnEqual), cmp)
  {
    var m := Merge(a, b, cmp, firstOnEqual);
    MergePermutes(a, b, cmp, firstOnEqual);
    forall y | y in m ensures cmp(x, y) != Greater {
      assert y in multiset(m);
      assert y in multiset(a) || y in multiset(b);
    }
  }

  /** Merging two sorted sequences yields a sorted sequence. */
  lemma {:induction false} MergeSorted<T(!new)>(a: seq<T>, b: seq<T>, cmp: (T, T) -> Cmp, firstOnEqual: bool)
    requires Comparator(cmp)
    requires Sorted(a, cmp) && Sorted(b, cmp)
    ensures Sorted(Merge(a, b, cmp, firstOnEqual), cmp)
    decreases |a| + |b|
  {
    if |a| == 0 || |b| == 0 {
    } else if TakesFirst(cmp(a[0], b[0]), firstOnEqual) {
      MergeSorted(a[1..], b, cmp, firstOnEqual);
      if |a| > 1 {
        BelowSorted(a[0], a[1..], cmp);
      }
      BelowSorted(a[0], b, cmp);
      BelowMerge(a[0], a[1..], b, cmp, firstOnEqual);
      SortedCons(a[0], Merge(a[1..], b, cmp, firstOnEqual), cmp);
    } else {
      MergeSorted(a, b[1..], cmp, firstOnEqual);
      ComparatorEqual(cmp, a[0], b[0]);
      if |b| > 1 {
        BelowSorted(b[0], b[1..], cmp);
      }
      BelowSorted(b[0], a, cmp);
      BelowMerge(b[0], a, b[1..], cmp, firstOnEqual);
      SortedCons(b[0], Merge(a, b[1..], cmp, firstOnEqual), cmp);
    }
  }

  /** The elements of `s` equivalent to `k`, in their order in `s`. */
  function Matching<T(!new)>(s: seq<T>, cmp: (T, T) -> Cmp, k: T): seq<T> {
    if |s| == 0 then []
    else (if cmp(s[0], k) == Equal then [s[0]] else []) + Matching(s[1..], cmp, k)
  }

  /** If every element of `s` is strictly above `x` and `x` is equivalent to
      `k`, then nothing in `s` is equivalent to `k`. */
  lemma {:induction false} NoneMatching<T(!new)>(x: T, s: seq<T>, cmp: (T, T) -> Cmp, k: T)
    requires Comparator(cmp) && cmp(x, k) == Equal
    requires forall y :: y in s ==> cmp(x, y) == Less
    ensures Matching(s, cmp, k) == []
    decreases |s|
  {
    if |s| > 0 {
      if cmp(s[0], k) == Equal {
        EqualTrans(cmp, x, s[0], k);
        assert false;
      }
      assert forall y :: y in s[1..] ==> y in s;
      NoneMatching(x, s[1..], cmp, k);
    }
  }

  lemma StrictlyBelow<T(!new)>(x: T, s: seq<T>, cmp: (T, T) -> Cmp)
    requires Comparator(cmp) && Sorted(s, cmp)
    requires |s| > 0 && cmp(x, s[0]) == Less
    ensures forall y :: y in s ==> cmp(x, y) == Less
  {
    forall y | y in s ensures cmp(x, y) == Less {
      var j :| 0 <= j < |s| && s[j] == y;
      if j > 0 {
        LessTrans(cmp, x, s[0], s[j]);
      }
    }
  }

  lemma MatchingCons<T(!new)>(x: T, s: seq<T>, cmp: (T, T) -> Cmp, k: T)
    ensures Matching([x] + s, cmp, k) == (if cmp(x, k) == Equal then [x] else []) + Matching(s, cmp, k)
  {
    assert ([x] + s)[1..] == s;
  }

  /** One step of the stability argument: the merge took the head `x` of one
      input, and `rest` is the merge of what remains. */
  lemma MatchingStep<T(!new)>(x: T, rest: seq<T>, tail: seq<T>, other: seq<T>, cmp: (T, T) -> Cmp, k: T, xFirst: bool)
    requires Comparator(cmp)
    requires rest == (if xFirst then Matching(tail, cmp, k) + Matching(other, cmp, k)
                      else Matching(other, cmp, k) + Matching(tail, cmp, k))
    requires !xFirst && cmp(x, k) == Equal ==> Matching(other, cmp, k) == []
    ensures (if cmp(x, k) == Equal then [x] else []) + rest
         == if xFirst then Matching([x] + tail, cmp, k) + Matching(other, cmp, k)
            else Matching(other, cmp, k) + Matching([x] + tail, cmp, k)
  {
    MatchingCons(x, tail, cmp, k);
  }

  /** Merging is stable: among elements equivalent to any key `k`, those of
      the input that wins ties come first, each input keeping its own order. */
  lemma {:induction false} MergeStable<T(!new)>(a: seq<T>, b: seq<T>, cmp: (T, T) -> Cmp, firstOnEqual: bool, k: T)
    requires Comparator(cmp)
    requires Sorted(a, cmp) && Sorted(b, cmp)
    ensures Matching(Merge(a, b, cmp, firstOnEqual), cmp, k)
         == if firstOnEqual then Matching(a, cmp, k) + Matching(b, cmp, k)
            else Matching(b, cmp, k) + Matching(a, cmp, k)
    decreases |a| + |b|
  {
    if |a| == 0 || |b| == 0 {
      assert Matching([], cmp, k) == [];
    } else if TakesFirst(cmp(a[0], b[0]), firstOnEqual) {
      var rest := Merge(a[1..], b, cmp, firstOnEqual);
      MergeStable(a[1..], b, cmp, firstOnEqual, k);
      MatchingCons(a[0], rest, cmp, k);
      if !firstOnEqual && cmp(a[0], k) == Equal {
        StrictlyBelow(a[0], b, cmp);
        NoneMatching(a[0], b, cmp, k);
      }
      MatchingStep(a[0], Matching(rest, cmp, k), a[1..], b, cmp, k, firstOnEqual);
      assert a == [a[0]] + a[1..];
    } else {
      var rest := Merge(a, b[1..], cmp, firstOnEqual);
      MergeStable(a, b[1..], cmp, firstOnEqual, k);
      MatchingCons(b[0], rest, cmp, k);
      if firstOnEqual && cmp(b[0], k) == Equal {
        assert cmp(b[0], a[0]) == Less;
        StrictlyBelow(b[0], a, cmp);
        NoneMatching(b[0], a, cmp, k);
      }
      MatchingStep(b[0], Matching(rest, cmp, k), b[1..], a, cmp, k, !firstOnEqual);
      assert b == [b[0]] + b[1..];
    }
  }
}
