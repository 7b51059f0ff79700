/** In-memory sorting of a buffer of fixed-size records
    (src/tsalgo/bufsort.c): a natural merge sort over the maximal ascending
    runs of the buffer, and Bentley's quicksort with a random pivot.

    A buffer of `size` bytes holding records of `storesize` bytes is modelled
    as the sequence of its `size / storesize` records; the byte offset of a
    record is its index times `storesize`. Byte quantities survive where the
    source checks them: in the argument validation and in `RandIdx`. */
module BufSort {
  import opened Base
  import opened Order

  /** What a sort hands back: NULL for rejected arguments, the caller's own
      buffer when it was sorted already, or a newly allocated sorted copy. */
  datatype SortResult<T> = Null | Borrowed | Owned(buf: seq<T>)

  /** The argument checks both public sorts perform before touching the buffer. */
  predicate ValidArgs<T>(src: Option<seq<T>>, size: nat, storesize: nat) {
    src.Some? && size != 0 && storesize != 0 && storesize <= size
  }

  /** What callers must guarantee: valid arguments describe the buffer, which
      holds a whole number of records. */
  predicate Shaped<T>(src: Option<seq<T>>, size: nat, storesize: nat) {
    ValidArgs(src, size, storesize) ==> size % storesize == 0 && |src.value| == size / storesize
  }

  // ---------------------------------------------------------------- runs

  /** A run: the records at indices [start, end). */
  datatype Run = Run(start: nat, end: nat)

  /** The runs cover [0, n) in order, none of them empty. */
  ghost predicate Tiling(runs: seq<Run>, n: nat) {
    && |runs| > 0
    && runs[0].start == 0
    && runs[|runs| - 1].end == n
    && (forall k :: 0 <= k < |runs| ==> runs[k].start < runs[k].end <= n)
    && (forall k :: 0 < k < |runs| ==> runs[k].start == runs[k - 1].end)
  }

  /** Every run of the tiling is sorted in `buf`. */
  ghost predicate RunsSorted<T(!new)>(buf: seq<T>, runs: seq<Run>, cmp: (T, T) -> Cmp)
    requires Tiling(runs, |buf|)
  {
    forall k :: 0 <= k < |runs| ==> Sorted(buf[runs[k].start..runs[k].end], cmp)
  }

  /** The index of the last record of the ascending run at the front of `buf`
      (getRun). */
  method GetRun<T(!new)>(buf: seq<T>, cmp: (T, T) -> Cmp) returns (last: nat)
    requires |buf| > 0
    ensures last < |buf|
    ensures Ascending(buf[..last + 1], cmp)
    ensures last + 1 < |buf| ==> cmp(buf[last], buf[last + 1]) == Greater
  {
    last := 0;
    while last + 1 < |buf|
      invariant last < |buf|
      invariant Ascending(buf[..last + 1], cmp)
    {
      if cmp(buf[last], buf[last + 1]) == Greater {
        break;
      }
      AscendingExtend(buf, last + 1, cmp);
      last := last + 1;
    }
  }

  /** The runs found in the first `i` records of `buf` cover them in order,
      one run per descent plus one. */
  ghost predicate RunsCover<T(!new)>(buf: seq<T>, runs: seq<Run>, i: nat, cmp: (T, T) -> Cmp) {
    && i <= |buf|
    && (i == 0 <==> |runs| == 0)
    && (|runs| > 0 ==> runs[0].start == 0 && runs[|runs| - 1].end == i)
    && (forall k :: 0 <= k < |runs| ==> runs[k].start < runs[k].end <= i)
    && (forall k :: 0 < k < |runs| ==> runs[k].start == runs[k - 1].end)
    && (i > 0 ==> |runs| == Stepdowns(buf[..i], cmp) + 1)
  }

  /** The runs found so far are ascending, each is ended by a descent, and
      so is the last one found. */
  ghost predicate RunsAscend<T(!new)>(buf: seq<T>, runs: seq<Run>, i: nat, cmp: (T, T) -> Cmp)
    requires RunsCover(buf, runs, i, cmp)
  {
    && (forall k :: 0 <= k < |runs| ==> Ascending(buf[runs[k].start..runs[k].end], cmp))
    && (forall k :: 0 < k < |runs| ==> Descent(buf, runs[k].start, cmp))
    && (0 < i < |buf| ==> Descent(buf, i, cmp))
  }

  lemma RunsCoverStep<T(!new)>(buf: seq<T>, runs: seq<Run>, i: nat, end: nat, cmp: (T, T) -> Cmp)
    requires RunsCover(buf, runs, i, cmp) && i < end <= |buf|
    requires 0 < i ==> Descent(buf, i, cmp)
    requires Ascending(buf[i..end], cmp)
    ensures RunsCover(buf, runs + [Run(i, end)], end, cmp)
  {
    StepdownsZero(buf[i..end], cmp);
    if i == 0 {
      assert buf[..end] == buf[i..end];
    } else {
      StepdownsSplit(buf[..end], cmp, i);
      assert buf[..end][..i] == buf[..i];
      assert buf[..end][i..] == buf[i..end];
    }
  }

  lemma RunsAscendStep<T(!new)>(buf: seq<T>, runs: seq<Run>, i: nat, end: nat, cmp: (T, T) -> Cmp)
    requires RunsCover(buf, runs, i, cmp) && RunsAscend(buf, runs, i, cmp) && i < end <= |buf|
    requires RunsCover(buf, runs + [Run(i, end)], end, cmp)
    requires Ascending(buf[i..end], cmp)
    requires end < |buf| ==> Descent(buf, end, cmp)
    ensures RunsAscend(buf, runs + [Run(i, end)], end, cmp)
  {
    var runs' := runs + [Run(i, end)];
    assert forall k :: 0 <= k < |runs| ==> runs'[k] == runs[k];
  }

  /** Splits a buffer into its maximal ascending runs (getRuns): one run per
      descent plus one, each ascending, and each ended by a descent. */
  method GetRuns<T(!new)>(buf: seq<T>, cmp: (T, T) -> Cmp) returns (runs: seq<Run>)
    requires |buf| > 0
    ensures Tiling(runs, |buf|)
    ensures forall k :: 0 <= k < |runs| ==> Ascending(buf[runs[k].start..runs[k].end], cmp)
    ensures forall k :: 0 < k < |runs| ==> Descent(buf, runs[k].start, cmp)
    ensures |runs| == Stepdowns(buf, cmp) + 1
  {
    var i := 0;
    runs := [];
    while i < |buf|
      invariant RunsCover(buf, runs, i, cmp) && RunsAscend(buf, runs, i, cmp)
      decreases |buf| - i
    {
      var last := GetRun(buf[i..], cmp);
      var end := i + last + 1;
      assert buf[i..][..last + 1] == buf[i..end];
      assert end < |buf| ==> buf[i..][last] == buf[end - 1] && buf[i..][last + 1] == buf[end];
      RunsCoverStep(buf, runs, i, end, cmp);
      RunsAscendStep(buf, runs, i, end, cmp);
      runs := runs + [Run(i, end)];
      i := end;
    }
    assert buf[..i] == buf;
  }

  // ---------------------------------------------------------------- merging

  /** Merges two runs into a target (mergeRuns). On a tie the record of the
      second run goes first. */
  method MergeRuns<T(!new)>(one: seq<T>, two: seq<T>, cmp: (T, T) -> Cmp) returns (trg: seq<T>)
    ensures trg == Merge(one, two, cmp, false)
    ensures |trg| == |one| + |two|
  {
    var i, j := 0, 0;
    trg := [];
    while i < |one| && j < |two|
      invariant i <= |one| && j <= |two|
      invariant trg + Merge(one[i..], two[j..], cmp, false) == Merge(one, two, cmp, false)
      decreases |one| - i + |two| - j
    {
      assert one[i..][1..] == one[i + 1..] && two[j..][1..] == two[j + 1..];
      if cmp(one[i], two[j]) == Less {
        trg := trg + [one[i]];
        i := i + 1;
      } else {
        trg := trg + [two[j]];
        j := j + 1;
      }
    }
    if i < |one| {
      trg := trg + one[i..];
    } else if j < |two| {
      trg := trg + two[j..];
    }
  }

  /** The content run `2 * k` and its partner leave in the target of a merge
      pass: their merge, or the lone last run copied through. */
  ghost function PairMerge<T(!new)>(src: seq<T>, runs: seq<Run>, k: nat, cmp: (T, T) -> Cmp): seq<T>
    requires Tiling(runs, |src|) && 2 * k < |runs|
  {
    var one := src[runs[2 * k].start..runs[2 * k].end];
    if 2 * k + 1 < |runs| then Merge(one, src[runs[2 * k + 1].start..runs[2 * k + 1].end], cmp, false)
    else one
  }

  lemma SlicesJoin<T>(s: seq<T>, a: nat, b: nat, c: nat)
    requires a <= b <= c <= |s|
    ensures s[a..c] == s[a..b] + s[b..c]
    ensures multiset(s[..c]) == multiset(s[..a]) + multiset(s[a..b]) + multiset(s[b..c])
  {
    assert s[..c] == s[..a] + s[a..b] + s[b..c];
  }

  /** The run a merge pass makes of run `2 * k` and its partner. */
  function PairRun(runs: seq<Run>, k: nat): Run
    requires 2 * k < |runs|
  {
    Run(runs[2 * k].start, runs[Min(2 * k + 1, |runs| - 1)].end)
  }

  /** What a merge pass has produced after its first `|merged|` pairs. */
  ghost predicate PassInv<T(!new)>(src: seq<T>, runs: seq<Run>, cmp: (T, T) -> Cmp, trg: seq<T>, merged: seq<Run>)
    requires Tiling(runs, |src|)
  {
    PassShape(src, runs, trg, merged) && PassContent(src, runs, cmp, trg, merged)
  }

  /** The target covers the first `|merged|` pairs, with their records, and
      `merged` lists the runs those pairs became. */
  ghost predicate PassShape<T>(src: seq<T>, runs: seq<Run>, trg: seq<T>, merged: seq<Run>)
    requires Tiling(runs, |src|)
  {
    && 2 * |merged| <= |runs| + 1
    && |trg| == (if 2 * |merged| < |runs| then runs[2 * |merged|].start else |src|)
    && multiset(trg) == multiset(src[..|trg|])
    && (forall m :: 0 <= m < |merged| ==> merged[m] == PairRun(runs, m))
  }

  /** Each produced run holds the merge of its pair. */
  ghost predicate PassContent<T(!new)>(src: seq<T>, runs: seq<Run>, cmp: (T, T) -> Cmp, trg: seq<T>, merged: seq<Run>)
    requires Tiling(runs, |src|)
  {
    forall m :: 0 <= m < |merged| && 2 * m < |runs| ==>
      merged[m].start <= merged[m].end <= |trg| && trg[merged[m].start..merged[m].end] == PairMerge(src, runs, m, cmp)
  }

  lemma PassStart<T(!new)>(src: seq<T>, runs: seq<Run>, cmp: (T, T) -> Cmp)
    requires Tiling(runs, |src|)
    ensures PassInv(src, runs, cmp, [], [])
  {
    assert src[..0] == [];
  }

  lemma PassShapeStep<T(!new)>(src: seq<T>, runs: seq<Run>, cmp: (T, T) -> Cmp, trg: seq<T>, merged: seq<Run>, piece: seq<T>)
    requires Tiling(runs, |src|) && PassShape(src, runs, trg, merged)
    requires 2 * |merged| < |runs|
    requires piece == PairMerge(src, runs, |merged|, cmp)
    ensures PassShape(src, runs, trg + piece, merged + [PairRun(runs, |merged|)])
    ensures |trg + piece| == PairRun(runs, |merged|).end
  {
    var r := PairRun(runs, |merged|);
    PairRecords(src, runs, |merged|, cmp);
    SlicesJoin(src, 0, r.start, r.end);
  }

  /** The merge of a pair holds the records the pair covers. */
  lemma PairRecords<T(!new)>(src: seq<T>, runs: seq<Run>, k: nat, cmp: (T, T) -> Cmp)
    requires Tiling(runs, |src|) && 2 * k < |runs|
    ensures PairRun(runs, k).start <= PairRun(runs, k).end <= |src|
    ensures multiset(PairMerge(src, runs, k, cmp)) == multiset(src[PairRun(runs, k).start..PairRun(runs, k).end])
  {
    var r := PairRun(runs, k);
    var one := src[runs[2 * k].start..runs[2 * k].end];
    if 2 * k + 1 < |runs| {
      var two := src[runs[2 * k + 1].start..runs[2 * k + 1].end];
      MergePermutes(one, two, cmp, false);
      assert src[r.start..r.end] == one + two;
    }
  }

  lemma PassContentStep<T(!new)>(src: seq<T>, runs: seq<Run>, cmp: (T, T) -> Cmp, trg: seq<T>, merged: seq<Run>, piece: seq<T>)
    requires Tiling(runs, |src|) && PassContent(src, runs, cmp, trg, merged)
    requires 2 * |merged| < |runs|
    requires forall m :: 0 <= m < |merged| ==> merged[m] == PairRun(runs, m)
    requires |trg| == runs[2 * |merged|].start
    requires |trg + piece| == PairRun(runs, |merged|).end
    requires piece == PairMerge(src, runs, |merged|, cmp)
    ensures PassContent(src, runs, cmp, trg + piece, merged + [PairRun(runs, |merged|)])
  {
    var r := PairRun(runs, |merged|);
    var trg' := trg + piece;
    var merged' := merged + [r];
    assert trg'[r.start..r.end] == piece;
    forall m | 0 <= m < |merged'| && 2 * m < |runs|
      ensures merged'[m].start <= merged'[m].end <= |trg'| && trg'[merged'[m].start..merged'[m].end] == PairMerge(src, runs, m, cmp)
    {
      if m < |merged| {
        assert trg'[merged[m].start..merged[m].end] == trg[merged[m].start..merged[m].end];
      }
    }
  }

  lemma PassStep<T(!new)>(src: seq<T>, runs: seq<Run>, cmp: (T, T) -> Cmp, trg: seq<T>, merged: seq<Run>, piece: seq<T>)
    requires Tiling(runs, |src|) && PassInv(src, runs, cmp, trg, merged)
    requires 2 * |merged| < |runs|
    requires piece == PairMerge(src, runs, |merged|, cmp)
    ensures PassInv(src, runs, cmp, trg + piece, merged + [PairRun(runs, |merged|)])
  {
    PassShapeStep(src, runs, cmp, trg, merged, piece);
    PassContentStep(src, runs, cmp, trg, merged, piece);
  }

  lemma PassDone<T(!new)>(src: seq<T>, runs: seq<Run>, cmp: (T, T) -> Cmp, trg: seq<T>, merged: seq<Run>)
    requires Tiling(runs, |src|) && PassInv(src, runs, cmp, trg, merged)
    requires 2 * |merged| >= |runs|
    ensures |trg| == |src| && multiset(trg) == multiset(src)
    ensures Tiling(merged, |src|)
    ensures |merged| == (|runs| + 1) / 2
    ensures forall k :: 0 <= k < |merged| ==> merged[k] == PairRun(runs, k)
    ensures forall k :: 0 <= k < |merged| ==>
              trg[merged[k].start..merged[k].end] == PairMerge(src, runs, k, cmp)
    ensures Comparator(cmp) && RunsSorted(src, runs, cmp) ==> RunsSorted(trg, merged, cmp)
  {
    assert src[..|trg|] == src;
    forall k | 0 <= k < |merged| && Comparator(cmp) && RunsSorted(src, runs, cmp)
      ensures Sorted(trg[merged[k].start..merged[k].end], cmp)
    {
      if 2 * k + 1 < |runs| {
        MergeSorted(src[runs[2 * k].start..runs[2 * k].end], src[runs[2 * k + 1].start..runs[2 * k + 1].end], cmp, false);
      }
    }
  }

  /** Run `2 * k` merged with its partner, or copied when it has none (the
      body of the loop in mergeBuf). */
  method MergePair<T(!new)>(src: seq<T>, runs: seq<Run>, k: nat, cmp: (T, T) -> Cmp) returns (piece: seq<T>)
    requires Tiling(runs, |src|) && 2 * k < |runs|
    ensures piece == PairMerge(src, runs, k, cmp)
  {
    var run1 := runs[2 * k];
    if 2 * k + 1 == |runs| {
      piece := src[run1.start..run1.end];
    } else {
      var run2 := runs[2 * k + 1];
      piece := MergeRuns(src[run1.start..run1.end], src[run2.start..run2.end], cmp);
    }
  }

  /** One pass over a buffer (mergeBuf): neighbouring runs are merged pairwise
      into the target, an odd last run is copied, and the run list halves. */
  method MergeBuf<T(!new)>(src: seq<T>, runs: seq<Run>, cmp: (T, T) -> Cmp) returns (trg: seq<T>, merged: seq<Run>)
    requires Tiling(runs, |src|)
    ensures |trg| == |src|
    ensures multiset(trg) == multiset(src)
    ensures Tiling(merged, |src|)
    ensures |merged| == (|runs| + 1) / 2
    ensures forall k :: 0 <= k < |merged| ==> merged[k] == PairRun(runs, k)
    ensures forall k :: 0 <= k < |merged| ==>
              trg[merged[k].start..merged[k].end] == PairMerge(src, runs, k, cmp)
    ensures Comparator(cmp) && RunsSorted(src, runs, cmp) ==> RunsSorted(trg, merged, cmp)
  {
    trg := [];
    merged := [];
    PassStart(src, runs, cmp);
    var k := 0;
    while k < |runs|
      invariant k == 2 * |merged| && PassInv(src, runs, cmp, trg, merged)
    {
      var piece := MergePair(src, runs, |merged|, cmp);
      PassStep(src, runs, cmp, trg, merged, piece);
      trg := trg + piece;
      merged := merged + [PairRun(runs, |merged|)];
      k := k + 2;
    }
    PassDone(src, runs, cmp, trg, merged);
  }

  /** Repeated merge passes until one run is left (buffermerge); the two
      helper buffers of the source alternate as source and target. */
  method BufferMerge<T(!new)>(src: seq<T>, runs: seq<Run>, cmp: (T, T) -> Cmp) returns (out: seq<T>)
    requires Tiling(runs, |src|) && |runs| > 1
    ensures |out| == |src| && multiset(out) == multiset(src)
    ensures Comparator(cmp) && RunsSorted(src, runs, cmp) ==> Sorted(out, cmp)
    decreases |runs|
  {
    var trg, merged := MergeBuf(src, runs, cmp);
    if |merged| == 1 {
      assert trg[merged[0].start..merged[0].end] == trg;
      out := trg;
    } else {
      out := BufferMerge(trg, merged, cmp);
    }
  }

  /** Ascending runs are sorted runs under the comparator laws. */
  lemma AscendingRunsSorted<T(!new)>(buf: seq<T>, runs: seq<Run>, cmp: (T, T) -> Cmp)
    requires Comparator(cmp) && Tiling(runs, |buf|)
    requires forall k :: 0 <= k < |runs| ==> Ascending(buf[runs[k].start..runs[k].end], cmp)
    ensures RunsSorted(buf, runs, cmp)
  {
    forall k | 0 <= k < |runs| ensures Sorted(buf[runs[k].start..runs[k].end], cmp) {
      AscendingIsSorted(buf[runs[k].start..runs[k].end], cmp);
    }
  }

  /** Natural merge sort of a buffer (ts_algo_sort_buf_merge). A buffer that is
      one ascending run is handed back as it is; a buffer with more runs than
      half its records is reversed first, and handed back reversed if that
      leaves one run; otherwise the runs are merged into new memory. */
  method SortBufMerge<T(!new)>(src: Option<seq<T>>, size: nat, storesize: nat, cmp: (T, T) -> Cmp)
    returns (r: SortResult<T>)
    requires Shaped(src, size, storesize)
    ensures r.Null? <==> !ValidArgs(src, size, storesize)
    ensures r.Borrowed? <==> ValidArgs(src, size, storesize) && Ascending(src.value, cmp)
    ensures r.Owned? ==> |r.buf| == |src.value| && multiset(r.buf) == multiset(src.value)
    ensures r.Owned? && Comparator(cmp) ==> Sorted(r.buf, cmp) && Ascending(r.buf, cmp)
    ensures r.Owned? && Stepdowns(src.value, cmp) > (|src.value| - 1) / 2 && Ascending(Reverse(src.value), cmp)
            ==> r.buf == Reverse(src.value)
  {
    if src.None? || size == 0 || storesize == 0 || storesize > size {
      return Null;
    }
    var buf := src.value;
    var no := size / storesize - 1;
    var runs := GetRuns(buf, cmp);
    StepdownsZero(buf, cmp);
    if |runs| == 1 {
      return Borrowed;
    }
    var hlp0 := buf;
    if |runs| > no / 2 + 1 {
      hlp0 := Reverse(buf);
      ReverseReverse(buf);
      ReversePermutes(buf);
      runs := GetRuns(hlp0, cmp);
      StepdownsZero(hlp0, cmp);
      if |runs| == 1 {
        if Comparator(cmp) {
          AscendingIsSorted(hlp0, cmp);
        }
        return Owned(hlp0);
      }
    }
    var out := BufferMerge(hlp0, runs, cmp);
    if Comparator(cmp) {
      AscendingRunsSorted(hlp0, runs, cmp);
      AscendingIsSorted(out, cmp);
    }
    return Owned(out);
  }

  // ---------------------------------------------------------------- quicksort

  lemma {:induction false} MulMono(a: nat, b: nat, m: nat)
    requires a <= b
    ensures a * m <= b * m
    decreases b - a
  {
    if a < b {
      MulMono(a, b - 1, m);
      assert b * m == (b - 1) * m + m;
    }
  }

  /** Integer division rounds down. */
  lemma DivMul(v: nat, m: nat)
    requires m > 0
    ensures v / m * m <= v < v / m * m + m
    ensures (v / m * m) % m == 0
  {
  }

  /** Rounds `v` down to a multiple of `m`; a multiple below `v` stays below. */
  lemma RoundDown(v: nat, m: nat, l: nat)
    requires m > 0 && l <= v && l % m == 0
    ensures l <= v / m * m <= v
    ensures (v / m * m) % m == 0
  {
    DivMul(v, m);
    DivMul(l, m);
    var q := v / m;
    var lq := l / m;
    if lq > q {
      MulMono(q + 1, lq, m);
      assert false;
    }
    MulMono(lq, q, m);
  }

  /** A random byte offset in [l, u] rounded down to a record boundary
      (randidx); `r` is the value rand() returned. */
  function RandIdx(storesize: nat, l: nat, u: nat, r: nat): (t: nat)
    requires storesize > 0 && l <= u && l % storesize == 0
    ensures t % storesize == 0
    ensures l <= t <= u
  {
    var n := u - l + 1;
    var v := r % n + l;
    RoundDown(v, storesize, l);
    v / storesize * storesize
  }

  lemma MulDivRange(lo: nat, hi: nat, m: nat, t: nat)
    requires m > 0 && lo * m <= t <= hi * m && t % m == 0
    ensures lo <= t / m <= hi
  {
    var q := t / m;
    assert t == q * m;
    if q < lo {
      MulMono(q + 1, lo, m);
      assert false;
    }
  }

  /** The record index of the pivot drawn for the records [lo, hi]: randidx
      applied to their byte offsets. */
  function Pivot(storesize: nat, lo: nat, hi: nat, r: nat): (p: nat)
    requires storesize > 0 && lo <= hi
    ensures lo <= p <= hi
  {
    MulMono(lo, hi, storesize);
    assert (lo * storesize) % storesize == 0;
    var t := RandIdx(storesize, lo * storesize, hi * storesize, r);
    MulDivRange(lo, hi, storesize, t);
    t / storesize
  }

  /** Exchanges two records (swap); swapping a record with itself does nothing. */
  function Swap<T>(x: seq<T>, i: nat, j: nat): (y: seq<T>)
    requires i < |x| && j < |x|
    ensures |y| == |x|
    ensures y[i] == x[j] && y[j] == x[i]
    ensures forall k :: 0 <= k < |x| && k != i && k != j ==> y[k] == x[k]
    ensures multiset(y) == multiset(x)
  {
    if i == j then x else x[i := x[j]][j := x[i]]
  }

  /** Two sequences that agree outside [lo, hi] and hold the same records
      hold the same records inside [lo, hi]. */
  lemma SameOutside<T>(x: seq<T>, y: seq<T>, lo: nat, hi: int)
    requires |x| == |y| && lo <= hi + 1 && hi < |x|
    requires multiset(x) == multiset(y)
    requires forall k :: 0 <= k < |x| && !(lo <= k <= hi) ==> y[k] == x[k]
    ensures multiset(y[lo..hi + 1]) == multiset(x[lo..hi + 1])
  {
    ThreeParts(x, lo, hi + 1);
    ThreeParts(y, lo, hi + 1);
    assert x[..lo] == y[..lo];
    assert x[hi + 1..] == y[hi + 1..];
    var mx, my := multiset(x[lo..hi + 1]), multiset(y[lo..hi + 1]);
    forall e ensures my[e] == mx[e] {
      assert multiset(x)[e] == multiset(y)[e];
    }
  }

  /** A sequence holds the records of its three parts. */
  lemma ThreeParts<T>(x: seq<T>, lo: nat, hi: nat)
    requires lo <= hi <= |x|
    ensures multiset(x) == multiset(x[..lo]) + multiset(x[lo..hi]) + multiset(x[hi..])
  {
    assert x == x[..lo] + x[lo..hi] + x[hi..];
  }

  /** The elements of a slice, as a membership fact. */
  lemma InSlice<T>(y: seq<T>, a: nat, b: nat, k: nat)
    requires a <= k < b <= |y|
    ensures y[k] in multiset(y[a..b])
  {
    assert y[a..b][k - a] == y[k];
  }

  /** The records [lo, hi] of a partitioned and recursively sorted range are
      sorted: everything left of the pivot is below it, everything right of
      it is not below it. */
  lemma QuicksortJoin<T(!new)>(y: seq<T>, lo: nat, m: nat, hi: nat, cmp: (T, T) -> Cmp)
    requires Comparator(cmp)
    requires lo <= m <= hi < |y|
    requires Sorted(y[lo..m], cmp) && Sorted(y[m + 1..hi + 1], cmp)
    requires forall v :: v in multiset(y[lo..m]) ==> cmp(v, y[m]) == Less
    requires forall v :: v in multiset(y[m + 1..hi + 1]) ==> cmp(v, y[m]) != Less
    ensures Sorted(y[lo..hi + 1], cmp)
  {
    var s := y[lo..hi + 1];
    forall i, j | 0 <= i < j < |s| ensures cmp(s[i], s[j]) != Greater {
      var a, b := lo + i, lo + j;
      assert s[i] == y[a] && s[j] == y[b];
      if b < m {
        assert y[lo..m][i] == y[a] && y[lo..m][j] == y[b];
      } else if a > m {
        assert y[m + 1..hi + 1][a - m - 1] == y[a] && y[m + 1..hi + 1][b - m - 1] == y[b];
      } else if a < m && b == m {
        InSlice(y, lo, m, a);
      } else if a == m {
        InSlice(y, m + 1, hi + 1, b);
      } else {
        InSlice(y, lo, m, a);
        InSlice(y, m + 1, hi + 1, b);
        LessTrans(cmp, y[a], y[m], y[b]);
      }
    }
  }

  /** The partitioning loop of quicksort: with the pivot at `lo`, the records
      below it are gathered right behind it, up to `m`. */
  method Gather<T(!new)>(x: seq<T>, lo: nat, hi: nat, cmp: (T, T) -> Cmp) returns (y: seq<T>, m: nat)
    requires lo <= hi < |x|
    ensures lo <= m <= hi
    ensures |y| == |x| && multiset(y) == multiset(x)
    ensures forall k :: 0 <= k < |x| && !(lo < k <= hi) ==> y[k] == x[k]
    ensures forall k :: lo < k <= m ==> cmp(y[k], y[lo]) == Less
    ensures forall k :: m < k <= hi ==> cmp(y[k], y[lo]) != Less
  {
    y := x;
    m := lo;
    var i := lo + 1;
    while i <= hi
      invariant lo <= m < i <= hi + 1
      invariant |y| == |x| && multiset(y) == multiset(x)
      invariant forall k :: 0 <= k < |x| && !(lo < k <= hi) ==> y[k] == x[k]
      invariant forall k :: lo < k <= m ==> cmp(y[k], y[lo]) == Less
      invariant forall k :: m < k < i ==> cmp(y[k], y[lo]) != Less
    {
      if cmp(y[i], y[lo]) == Less {
        m := m + 1;
        y := Swap(y, m, i);
      }
      i := i + 1;
    }
  }

  /** Partitioning around the record at `p`: the pivot is moved to `lo`, the
      records below it are gathered behind it, and the pivot is swapped to
      the end of that group, at `m`. */
  method Partition<T(!new)>(x: seq<T>, lo: nat, hi: nat, p: nat, cmp: (T, T) -> Cmp) returns (y: seq<T>, m: nat)
    requires lo <= p <= hi < |x|
    ensures lo <= m <= hi
    ensures |y| == |x| && multiset(y) == multiset(x)
    ensures forall k :: 0 <= k < |x| && !(lo <= k <= hi) ==> y[k] == x[k]
    ensures y[m] == x[p]
    ensures forall k :: lo <= k < m ==> cmp(y[k], y[m]) == Less
    ensures forall k :: m < k <= hi ==> cmp(y[k], y[m]) != Less
  {
    var y0 := Swap(x, lo, p);
    var y1;
    y1, m := Gather(y0, lo, hi, cmp);
    y := Swap(y1, lo, m);
  }

  /** After sorting both sides of a partition, the whole range is sorted and
      holds what it held before. */
  lemma QuicksortAssemble<T(!new)>(x: seq<T>, y0: seq<T>, y1: seq<T>, y: seq<T>, lo: nat, m: nat, hi: nat, cmp: (T, T) -> Cmp)
    requires lo <= m <= hi < |x|
    requires |y0| == |x| && multiset(y0) == multiset(x)
    requires forall k :: 0 <= k < |x| && !(lo <= k <= hi) ==> y0[k] == x[k]
    requires forall k :: lo <= k < m ==> cmp(y0[k], y0[m]) == Less
    requires forall k :: m < k <= hi ==> cmp(y0[k], y0[m]) != Less
    requires |y1| == |x| && multiset(y1) == multiset(y0)
    requires forall k :: 0 <= k < |x| && !(lo <= k < m) ==> y1[k] == y0[k]
    requires multiset(y1[lo..m]) == multiset(y0[lo..m])
    requires Comparator(cmp) ==> Sorted(y1[lo..m], cmp)
    requires |y| == |x| && multiset(y) == multiset(y1)
    requires forall k :: 0 <= k < |x| && !(m < k <= hi) ==> y[k] == y1[k]
    requires multiset(y[m + 1..hi + 1]) == multiset(y1[m + 1..hi + 1])
    requires Comparator(cmp) ==> Sorted(y[m + 1..hi + 1], cmp)
    ensures forall k :: 0 <= k < |x| && !(lo <= k <= hi) ==> y[k] == x[k]
    ensures multiset(y[lo..hi + 1]) == multiset(x[lo..hi + 1])
    ensures Comparator(cmp) ==> Sorted(y[lo..hi + 1], cmp)
  {
    SameOutside(x, y, lo, hi);
    assert y[lo..m] == y1[lo..m];
    assert y1[m + 1..hi + 1] == y0[m + 1..hi + 1];
    forall v | v in multiset(y[lo..m]) ensures cmp(v, y[m]) == Less {
      var k :| 0 <= k < m - lo && y0[lo..m][k] == v;
      assert y0[lo + k] == v;
    }
    forall v | v in multiset(y[m + 1..hi + 1]) ensures cmp(v, y[m]) != Less {
      var k :| 0 <= k < hi - m && y0[m + 1..hi + 1][k] == v;
      assert y0[m + 1 + k] == v;
    }
    if Comparator(cmp) {
      QuicksortJoin(y, lo, m, hi, cmp);
    }
  }

  /** Bentley's quicksort of the records [lo, hi] (quicksort); `hi` is
      inclusive and `lo == hi + 1` is the empty range. The records below the
      pivot and those not below it are sorted separately. `pick` stands for
      rand(): any function yields a valid run. */
  method Quicksort<T(!new)>(x: seq<T>, storesize: nat, lo: nat, hi: int, cmp: (T, T) -> Cmp, pick: (nat, nat) -> nat)
    returns (y: seq<T>)
    requires storesize > 0 && lo <= hi + 1 && hi < |x|
    ensures |y| == |x| && multiset(y) == multiset(x)
    ensures forall k :: 0 <= k < |x| && !(lo <= k <= hi) ==> y[k] == x[k]
    ensures multiset(y[lo..hi + 1]) == multiset(x[lo..hi + 1])
    ensures Comparator(cmp) ==> Sorted(y[lo..hi + 1], cmp)
    decreases hi + 1 - lo
  {
    if lo >= hi {
      y := x;
      return;
    }
    var y0, m := Partition(x, lo, hi, Pivot(storesize, lo, hi, pick(lo, hi)), cmp);
    var y1 := y0;
    if m != 0 {
      y1 := Quicksort(y0, storesize, lo, m - 1, cmp, pick);
    }
    y := Quicksort(y1, storesize, m + 1, hi, cmp, pick);
    QuicksortAssemble(x, y0, y1, y, lo, m, hi, cmp);
  }

  /** No record is below its predecessor: the check ts_algo_sort_buf_quick
      makes, scanning from the back. */
  predicate NoDrop<T(!new)>(s: seq<T>, cmp: (T, T) -> Cmp) {
    forall i :: 0 < i < |s| ==> !Drop(s, i, cmp)
  }

  /** The record at `i` is below its predecessor. */
  predicate Drop<T(!new)>(s: seq<T>, i: nat, cmp: (T, T) -> Cmp) {
    0 < i < |s| && cmp(s[i], s[i - 1]) == Less
  }

  /** Sorted sequences pass the quicksort's check. */
  lemma SortedNoDrop<T(!new)>(s: seq<T>, cmp: (T, T) -> Cmp)
    requires Comparator(cmp) && Sorted(s, cmp)
    ensures NoDrop(s, cmp)
  {
    forall i | 0 < i < |s| ensures cmp(s[i], s[i - 1]) != Less {
      assert cmp(s[i - 1], s[i]) != Greater;
    }
  }

  /** The backwards scan of ts_algo_sort_buf_quick: it stops at the first
      record, from the back, that is below its predecessor. */
  method ScanNoDrop<T(!new)>(buf: seq<T>, cmp: (T, T) -> Cmp) returns (sorted: bool)
    requires |buf| > 0
    ensures sorted <==> NoDrop(buf, cmp)
  {
    sorted := true;
    var i: nat := |buf| - 1;
    while i != 0
      invariant 0 <= i < |buf|
      invariant sorted ==> forall k :: i < k < |buf| ==> !Drop(buf, k, cmp)
      invariant !sorted ==> Drop(buf, i, cmp)
      decreases i
    {
      if cmp(buf[i], buf[i - 1]) == Less {
        sorted := false;
        break;
      }
      i := i - 1;
    }
    assert !sorted ==> Drop(buf, i, cmp);
  }

  /** Quicksort of a buffer (ts_algo_sort_buf_quick). A buffer that passes the
      backwards scan is handed back as it is; otherwise a copy is sorted. */
  method SortBufQuick<T(!new)>(src: Option<seq<T>>, size: nat, storesize: nat, cmp: (T, T) -> Cmp, pick: (nat, nat) -> nat)
    returns (r: SortResult<T>)
    requires Shaped(src, size, storesize)
    ensures r.Null? <==> !ValidArgs(src, size, storesize)
    ensures r.Borrowed? <==> ValidArgs(src, size, storesize) && NoDrop(src.value, cmp)
    ensures r.Owned? ==> |r.buf| == |src.value| && multiset(r.buf) == multiset(src.value)
    ensures r.Owned? && Comparator(cmp) ==> Sorted(r.buf, cmp) && NoDrop(r.buf, cmp)
  {
    if src.None? || size == 0 || storesize == 0 || storesize > size {
      return Null;
    }
    var buf := src.value;
    var sorted := ScanNoDrop(buf, cmp);
    if sorted {
      return Borrowed;
    }
    var out := Quicksort(buf, storesize, 0, |buf| - 1, cmp, pick);
    assert out[0..|buf|] == out;
    if Comparator(cmp) {
      SortedNoDrop(out, cmp);
    }
    return Owned(out);
  }

  /** Releases what a sort returned (ts_algo_sort_buf_release): only memory
      the sort allocated is freed, never the caller's buffer. */
  function Release<T>(r: SortResult<T>): (freed: Option<seq<T>>)
    ensures freed.Some? <==> r.Owned?
    ensures freed.Some? ==> freed.value == r.buf
  {
    match r
    case Null => None
    case Borrowed => None
    case Owned(b) => Some(b)
  }
}
