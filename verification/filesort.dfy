/** External sorting (src/tsalgo/filesort.c). A file is the sequence of its
    records. The file is first sorted chunk by chunk with the buffer
    quicksort; then merge passes over two staging files double the sorted
    chunk length until one chunk covers the file. Inside the passes sizes are
    counted in records; the public operations take byte sizes as the C
    interface does. */
module FileSort {
  import opened Base
  import opened Order
  import BufSort
  import FileMerge

  /** The block size of the file layer; ts_algo_merge_files uses it as the
      size of its memory windows. */
  const Block: nat := 8192

  /** The longest accepted file name plus one (MAXPATH). */
  const MaxPath: nat := 4096

  // ------------------------------------------------------------------ chunks

  /** Every aligned chunk of `n` records of `s` is sorted (the last chunk may
      be shorter). */
  ghost predicate ChunksSorted<T(!new)>(s: seq<T>, n: nat, cmp: (T, T) -> Cmp)
    requires n > 0
    decreases |s|
  {
    if |s| <= n then Sorted(s, cmp) else Sorted(s[..n], cmp) && ChunksSorted(s[n..], n, cmp)
  }

  /** Every aligned chunk of `n` records of `x` holds the records of the same
      chunk of `y`. */
  ghost predicate SameChunks<T>(x: seq<T>, y: seq<T>, n: nat)
    requires n > 0
    decreases |x|
  {
    && |x| == |y|
    && if |x| <= n then multiset(x) == multiset(y)
       else multiset(x[..n]) == multiset(y[..n]) && SameChunks(x[n..], y[n..], n)
  }

  /** `len` is a whole number of chunks of `n`. */
  predicate Aligned(len: nat, n: nat)
    requires n > 0
    decreases len
  {
    len == 0 || (len >= n && Aligned(len - n, n))
  }

  /** A chunk appended after whole chunks becomes the next chunk. */
  lemma {:induction false} ChunksAppend<T(!new)>(a: seq<T>, c: seq<T>, n: nat, cmp: (T, T) -> Cmp)
    requires n > 0 && Aligned(|a|, n) && |c| <= n
    requires ChunksSorted(a, n, cmp) && Sorted(c, cmp)
    ensures ChunksSorted(a + c, n, cmp)
    decreases |a|
  {
    if |a| == 0 {
      assert a + c == c;
    } else if |a| == n && |c| == 0 {
      assert a + c == a;
    } else {
      assert (a + c)[..n] == a[..n];
      assert (a + c)[n..] == a[n..] + c;
      if |a| == n {
        assert a[n..] + c == c;
        assert a[..n] == a;
      } else {
        ChunksAppend(a[n..], c, n, cmp);
      }
    }
  }

  /** The same for the chunk-wise permutation. */
  lemma {:induction false} SameChunksAppend<T>(a: seq<T>, b: seq<T>, c: seq<T>, d: seq<T>, n: nat)
    requires n > 0 && Aligned(|a|, n) && |c| <= n
    requires SameChunks(a, b, n) && |c| == |d| && multiset(c) == multiset(d)
    ensures SameChunks(a + c, b + d, n)
    decreases |a|
  {
    if |a| == 0 {
      assert a + c == c && b + d == d;
    } else if |a| == n && |c| == 0 {
      assert a + c == a && b + d == b;
    } else {
      assert (a + c)[..n] == a[..n] && (b + d)[..n] == b[..n];
      assert (a + c)[n..] == a[n..] + c && (b + d)[n..] == b[n..] + d;
      if |a| == n {
        assert a[n..] + c == c && b[n..] + d == d;
        assert a[..n] == a && b[..n] == b;
      } else {
        SameChunksAppend(a[n..], b[n..], c, d, n);
      }
    }
  }

  /** Chunk-wise permutation is a permutation. */
  lemma {:induction false} SameChunksPermutes<T>(x: seq<T>, y: seq<T>, n: nat)
    requires n > 0 && SameChunks(x, y, n)
    ensures multiset(x) == multiset(y)
    decreases |x|
  {
    if |x| > n {
      SameChunksPermutes(x[n..], y[n..], n);
      assert x == x[..n] + x[n..] && y == y[..n] + y[n..];
    }
  }

  /** A sequence no longer than a chunk whose chunks are sorted is sorted. */
  lemma OneChunk<T(!new)>(s: seq<T>, n: nat, cmp: (T, T) -> Cmp)
    requires n > 0 && |s| <= n && ChunksSorted(s, n, cmp)
    ensures Sorted(s, cmp)
  {
  }

  /** Buffers the quicksort passes as sorted are sorted (the converse of
      BufSort.SortedNoDrop). */
  lemma NoDropSorted<T(!new)>(s: seq<T>, cmp: (T, T) -> Cmp)
    requires Comparator(cmp) && BufSort.NoDrop(s, cmp)
    ensures Sorted(s, cmp)
  {
    forall i | 0 < i < |s| ensures !Descent(s, i, cmp) {
      assert !BufSort.Drop(s, i, cmp);
    }
    AscendingIsSorted(s, cmp);
  }

  /** `s * m` divided by `m` is `s`. */
  lemma MulDivExact(s: nat, m: nat)
    requires m > 0
    ensures (s * m) % m == 0 && (s * m) / m == s
    ensures s > 0 ==> s * m >= m
  {
    var q, r := (s * m) / m, (s * m) % m;
    assert s * m == q * m + r && 0 <= r < m;
    MulSucc(q, m);
    MulSucc(s, m);
    if q < s {
      BufSort.MulMono(q + 1, s, m);
      assert false;
    }
    if s < q {
      BufSort.MulMono(s + 1, q, m);
      assert false;
    }
    if s > 0 {
      BufSort.MulMono(1, s, m);
    }
  }

  lemma MulSucc(a: nat, m: nat)
    ensures (a + 1) * m == a * m + m
  {
  }

  /** Sorting one chunk with the buffer quicksort (the sort and release
      calls of sortBuffers): the chunk itself when it passes the check,
      otherwise the sorted copy. */
  method SortChunk<T(!new)>(chunk: seq<T>, storesize: nat, cmp: (T, T) -> Cmp, pick: (nat, nat) -> nat)
    returns (sorted: seq<T>)
    requires |chunk| > 0 && storesize > 0
    ensures |sorted| == |chunk| && multiset(sorted) == multiset(chunk)
    ensures Comparator(cmp) ==> Sorted(sorted, cmp)
  {
    MulDivExact(|chunk|, storesize);
    var r := BufSort.SortBufQuick(Some(chunk), |chunk| * storesize, storesize, cmp, pick);
    // The arguments are valid, so the result is the buffer itself or a
    // sorted copy.
    sorted := if r.Owned? then r.buf else chunk;
    if Comparator(cmp) && r.Borrowed? {
      NoDropSorted(chunk, cmp);
    }
  }

  // ------------------------------------------------------------ sortBuffers

  /** What sortBuffers has written after the first `|out|` records of `f`:
      chunk-wise sorted permutations of them, and whole chunks while the
      file goes on. */
  ghost predicate Written<T(!new)>(f: seq<T>, out: seq<T>, b: nat, whole: bool, cmp: (T, T) -> Cmp)
    requires b > 0
  {
    && |out| <= |f|
    && SameChunks(out, f[..|out|], b)
    && (Comparator(cmp) ==> ChunksSorted(out, b, cmp))
    && (whole ==> Aligned(|out|, b))
  }

  /** Appending the next sorted chunk keeps what sortBuffers has written in
      shape. */
  lemma WrittenStep<T(!new)>(f: seq<T>, out: seq<T>, chunk: seq<T>, sorted: seq<T>, b: nat, whole: bool, cmp: (T, T) -> Cmp)
    requires b > 0 && Written(f, out, b, true, cmp)
    requires |out| + |chunk| <= |f| && chunk == f[|out|..|out| + |chunk|] && 0 < |chunk| <= b
    requires |sorted| == |chunk| && multiset(sorted) == multiset(chunk)
    requires Comparator(cmp) ==> Sorted(sorted, cmp)
    requires whole ==> |chunk| == b
    ensures Written(f, out + sorted, b, whole, cmp)
  {
    if Comparator(cmp) {
      ChunksAppend(out, sorted, b, cmp);
    }
    SameChunksAppend(out, f[..|out|], sorted, chunk, b);
    assert f[..|out|] + chunk == f[..|out| + |chunk|];
    if whole {
      assert |out + sorted| - b == |out|;
    }
  }

  /** Sorting a file chunk by chunk (sortBuffers): chunks of `b` records, the
      last one shorter, are read in turn, sorted with the buffer quicksort
      and written in order. The file must hold `total` records; an input
      that cannot be opened or that ends early is an error. `canCreate`
      says whether the output file can be opened for writing, which is
      tried after the input is opened and before anything is read. */
  method SortBuffers<T(!new)>(file: Option<seq<T>>, canCreate: bool, b: nat, total: nat, storesize: nat,
                              cmp: (T, T) -> Cmp, pick: (nat, nat) -> nat)
    returns (rc: Rc, out: seq<T>)
    requires b > 0 && storesize > 0
    ensures rc == Ok || rc == FOpen || rc == FRead
    ensures rc == FOpen <==> file.None? || !canCreate
    ensures rc == FRead <==> file.Some? && canCreate && |file.value| < total
    ensures rc == Ok ==> |out| == total && SameChunks(out, file.value[..total], b)
    ensures rc == Ok ==> multiset(out) == multiset(file.value[..total])
    ensures rc == Ok && Comparator(cmp) ==> ChunksSorted(out, b, cmp)
  {
    out := [];
    if file.None? || !canCreate {
      return FOpen, out;
    }
    var f := file.value;
    var rest: nat := total;
    while rest > 0
      invariant rest <= total && |out| == total - rest
      invariant Written(f, out, b, rest > 0, cmp)
    {
      var s := if rest > b then b else rest;
      var pos := total - rest;
      if pos + s > |f| {
        return FRead, out;
      }
      var chunk := f[pos..pos + s];
      var sorted := SortChunk(chunk, storesize, cmp, pick);
      WrittenStep(f, out, chunk, sorted, b, rest - s > 0, cmp);
      out := out + sorted;
      rest := rest - s;
    }
    assert f[..|out|] == f[..total];
    SameChunksPermutes(out, f[..total], b);
    rc := Ok;
  }

  // ------------------------------------------------------------ merge passes

  /** How a pass splits the `rest` records left at a stride offset: the
      first stream takes at most `n` records, the second at most `n` of what
      remains; a rest below `n` is a round without a second stream. */
  function Stride(rest: nat, n: nat): (r: (nat, nat))
    ensures r.0 == Min(n, rest) && r.1 == Min(n, rest - r.0)
  {
    if rest < 2 * n then (if rest < n then (rest, 0) else (n, rest - n)) else (n, n)
  }

  /** One merge pass over `s` with sorted chunk length `n` (the reference
      definition): neighbouring chunks are merged pairwise, stream 1 winning
      ties, and a lone last chunk is copied. */
  function Pass<T(!new)>(s: seq<T>, n: nat, cmp: (T, T) -> Cmp): (r: seq<T>)
    requires n > 0
    decreases |s|
  {
    if |s| <= 2 * n then Merge(s[..Min(n, |s|)], s[Min(n, |s|)..], cmp, true)
    else Merge(s[..n], s[n..2 * n], cmp, true) + Pass(s[2 * n..], n, cmp)
  }

  /** A pass takes its first stride, `b1` and `b2` records, as Stride says
      and continues after it. */
  lemma PassStride<T(!new)>(s: seq<T>, n: nat, b1: nat, b2: nat, cmp: (T, T) -> Cmp)
    requires n > 0 && |s| > 0 && (b1, b2) == Stride(|s|, n)
    ensures b1 + b2 <= |s|
    ensures Pass(s, n, cmp) == Merge(s[..b1], s[b1..b1 + b2], cmp, true) + Pass(s[b1 + b2..], n, cmp)
  {
    if |s| <= 2 * n {
      assert s[b1 + b2..] == [];
      assert s[b1..b1 + b2] == s[b1..];
      assert Pass(s[b1 + b2..], n, cmp) == [];
    }
  }

  /** A pass keeps the records. */
  lemma {:induction false} PassPermutes<T(!new)>(s: seq<T>, n: nat, cmp: (T, T) -> Cmp)
    requires n > 0
    ensures |Pass(s, n, cmp)| == |s|
    ensures multiset(Pass(s, n, cmp)) == multiset(s)
    decreases |s|
  {
    if |s| <= 2 * n {
      LastStrideKeeps(s, n, cmp);
    } else {
      PassPermutes(s[2 * n..], n, cmp);
      StrideKeeps(s, n, cmp);
    }
  }

  /** The last merge of a pass keeps the records. */
  lemma LastStrideKeeps<T(!new)>(s: seq<T>, n: nat, cmp: (T, T) -> Cmp)
    requires 0 < n && |s| <= 2 * n
    ensures |Pass(s, n, cmp)| == |s| && multiset(Pass(s, n, cmp)) == multiset(s)
  {
    var m := Min(n, |s|);
    var x, y := s[..m], s[m..];
    MergePermutes(x, y, cmp, true);
    assert Pass(s, n, cmp) == Merge(x, y, cmp, true);
    assert s == x + y;
    assert multiset(s) == multiset(x) + multiset(y);
  }

  /** A merge of two chunks followed by a pass that keeps the records
      keeps them too. */
  lemma StrideKeeps<T(!new)>(s: seq<T>, n: nat, cmp: (T, T) -> Cmp)
    requires 0 < n < 2 * n < |s|
    requires var p := Pass(s[2 * n..], n, cmp); |p| == |s| - 2 * n && multiset(p) == multiset(s[2 * n..])
    ensures |Pass(s, n, cmp)| == |s| && multiset(Pass(s, n, cmp)) == multiset(s)
  {
    var x, y, z := s[..n], s[n..2 * n], s[2 * n..];
    var m, p := Merge(x, y, cmp, true), Pass(z, n, cmp);
    MergePermutes(x, y, cmp, true);
    assert s == x + y + z;
    assert Pass(s, n, cmp) == m + p;
    JoinKeeps(x, y, z, m, p);
  }

  /** Two pieces that keep their sources keep their concatenation. */
  lemma JoinKeeps<T>(x: seq<T>, y: seq<T>, z: seq<T>, m: seq<T>, p: seq<T>)
    requires |m| == |x| + |y| && multiset(m) == multiset(x) + multiset(y)
    requires |p| == |z| && multiset(p) == multiset(z)
    ensures |m + p| == |x + y + z| && multiset(m + p) == multiset(x + y + z)
  {
    assert multiset(x + y + z) == multiset(x + y) + multiset(z);
    assert multiset(x + y) == multiset(x) + multiset(y);
  }

  /** The central property of the file sort: a pass over a file whose aligned
      chunks of `n` records are sorted leaves its aligned chunks of `2 * n`
      records sorted. */
  lemma {:induction false} PassSorted<T(!new)>(s: seq<T>, n: nat, cmp: (T, T) -> Cmp)
    requires n > 0 && Comparator(cmp) && ChunksSorted(s, n, cmp)
    ensures ChunksSorted(Pass(s, n, cmp), 2 * n, cmp)
    decreases |s|
  {
    PassPermutes(s, n, cmp);
    if |s| <= n {
      assert s[..|s|] == s && s[|s|..] == [];
      assert Pass(s, n, cmp) == s;
    } else if |s| <= 2 * n {
      assert |s[n..]| <= n;
      MergeSorted(s[..n], s[n..], cmp, true);
    } else {
      var t := s[n..];
      assert t[..n] == s[n..2 * n] && t[n..] == s[2 * n..];
      MergeSorted(s[..n], s[n..2 * n], cmp, true);
      PassSorted(s[2 * n..], n, cmp);
      var m := Merge(s[..n], s[n..2 * n], cmp, true);
      var p := Pass(s[2 * n..], n, cmp);
      assert (m + p)[..2 * n] == m && (m + p)[2 * n..] == p;
    }
  }

  /** One merge pass from the source staging file to the target (the loop of
      mergeBuffers). At each stride offset `i` both read handles of the
      source stand at `i`; the second is moved on by the first stream's
      length, the two streams are merged into the target, and the first is
      moved on by the second stream's length. Reads cannot fail: the source
      holds `total` records. */
  method MergePass<T(!new)>(src: seq<T>, n: nat, total: nat, base: nat, cmp: (T, T) -> Cmp) returns (trg: seq<T>)
    requires n > 0 && base > 0 && total <= |src|
    ensures trg == Pass(src[..total], n, cmp)
  {
    trg := [];
    var i: nat := 0;
    while i < total
      invariant i <= total
      invariant trg + Pass(src[i..total], n, cmp) == Pass(src[..total], n, cmp)
      decreases total - i
    {
      var out, next := MergeStride(src, i, total, n, base, cmp);
      ghost var rest := Pass(src[next..total], n, cmp);
      assert (trg + out) + rest == trg + (out + rest);
      trg := trg + out;
      i := next;
    }
    assert src[..total] == src[0..total];
  }

  /** One stride of a pass: both read handles of the source stand at `i`;
      the second is moved on by the first stream's length, the two streams
      are merged, and the first handle is moved on by the second stream's
      length, so both stand at the returned `next`. */
  method MergeStride<T(!new)>(src: seq<T>, i: nat, total: nat, n: nat, base: nat, cmp: (T, T) -> Cmp)
    returns (out: seq<T>, next: nat)
    requires n > 0 && base > 0 && i < total <= |src|
    ensures i < next <= total
    ensures out + Pass(src[next..total], n, cmp) == Pass(src[i..total], n, cmp)
  {
    var r := Stride(total - i, n);
    var bs1, bs2 := r.0, r.1;
    var p11, p12 := i, i;
    p12 := p12 + bs1;
    var rc;
    rc, out := MergeInto(src[p11..], src[p12..], bs1, bs2, base, cmp);
    p11, p12 := p11 + bs1, p12 + bs2;
    p11 := p11 + bs2;
    next := p11;
    ghost var rest := src[i..total];
    PassStride(rest, n, bs1, bs2, cmp);
    StrideSlices(src, i, total, bs1, bs2);
  }

  /** A merge of two record streams, seen as the concatenation of the
      blocks it writes. */
  method MergeInto<T(!new)>(one: seq<T>, two: seq<T>, size1: nat, size2: nat, base: nat, cmp: (T, T) -> Cmp)
    returns (rc: Rc, out: seq<T>)
    requires base > 0
    ensures rc == Ok || rc == FRead
    ensures rc == Ok <==> size1 <= |one| && size2 <= |two|
    ensures rc == Ok ==> out == Merge(one[..size1], two[..size2], cmp, true)
  {
    var blocks;
    rc, blocks := FileMerge.MergeStreams(one, two, size1, size2, base, cmp);
    out := Concat(blocks);
  }

  /** The slices a stride reads, seen from the stride offset. */
  lemma StrideSlices<T>(src: seq<T>, i: nat, total: nat, bs1: nat, bs2: nat)
    requires i + bs1 + bs2 <= total <= |src|
    ensures src[i..][..bs1] == src[i..total][..bs1]
    ensures src[i + bs1..][..bs2] == src[i..total][bs1..bs1 + bs2]
    ensures src[i..total][bs1 + bs2..] == src[i + bs1 + bs2..total]
  {
    var rest := src[i..total];
    assert src[i..][..bs1] == rest[..bs1];
    assert src[i + bs1..][..bs2] == src[i + bs1..i + bs1 + bs2];
    forall k | bs1 <= k < bs1 + bs2 ensures rest[k] == src[i + k] { }
    assert rest[bs1..bs1 + bs2] == src[i + bs1..i + bs1 + bs2];
    assert rest[bs1 + bs2..] == src[i + bs1 + bs2..total];
  }

  /** A whole pass over a staging file, seen by what it achieves: the
      records are kept and sorted chunks of `n` become sorted chunks of
      `2 * n`. */
  method Round<T(!new)>(src: seq<T>, n: nat, base: nat, cmp: (T, T) -> Cmp) returns (trg: seq<T>)
    requires n > 0 && base > 0
    ensures |trg| == |src| && multiset(trg) == multiset(src)
    ensures Comparator(cmp) && ChunksSorted(src, n, cmp) ==> ChunksSorted(trg, 2 * n, cmp)
  {
    trg := MergePass(src, n, |src|, base, cmp);
    assert src[..|src|] == src;
    PassPermutes(src, n, cmp);
    if Comparator(cmp) && ChunksSorted(src, n, cmp) {
      PassSorted(src, n, cmp);
    }
  }

  /** The sorted chunk length after `step` passes over chunks of `b`
      records: b doubled `step` times. */
  function ChunkLen(step: nat, b: nat): (w: nat)
    ensures b > 0 ==> w > 0
  {
    if step == 0 then b else 2 * ChunkLen(step - 1, b)
  }

  /** The chunk length is the `pow(2, step) * b` of mergeBuffers. */
  lemma {:induction false} ChunkLenPow(step: nat, b: nat)
    ensures ChunkLen(step, b) == Pow2(step) * b
  {
    if step > 0 {
      ChunkLenPow(step - 1, b);
      var p := Pow2(step - 1);
      assert Pow2(step) == p + p;
      assert (p + p) * b == p * b + p * b;
    }
  }

  /** The file that holds the result after `k` passes starting from the
      first staging file: the first after an even number, else the second. */
  function Holder<T>(first: seq<T>, second: seq<T>, k: nat): seq<T> {
    if k % 2 == 0 then first else second
  }

  /** One more pass swaps the roles of the two files. */
  lemma HolderSwap<T>(first: seq<T>, second: seq<T>, k: nat)
    ensures Holder(first, second, k + 1) == Holder(second, first, k)
  {
  }

  /** The merge passes (mergeBuffers): while the sorted chunk length
      `2^step * b` is below the file size, a pass merges the first staging
      file into the second and the roles swap. Returns the number of passes
      made in all and the final contents of the two files. */
  method MergeBuffers<T(!new)>(f1: seq<T>, f2: seq<T>, b: nat, total: nat, step: nat, cmp: (T, T) -> Cmp)
    returns (stepOut: nat, g1: seq<T>, g2: seq<T>)
    requires b > 0 && |f1| == total
    ensures stepOut >= step && ChunkLen(stepOut, b) >= total
    ensures forall s :: step <= s < stepOut ==> ChunkLen(s, b) < total
    ensures |Holder(g1, g2, stepOut - step)| == total
    ensures multiset(Holder(g1, g2, stepOut - step)) == multiset(f1)
    ensures Comparator(cmp) && ChunksSorted(f1, ChunkLen(step, b), cmp) ==> Sorted(Holder(g1, g2, stepOut - step), cmp)
    decreases total - ChunkLen(step, b)
  {
    var n := ChunkLen(step, b);
    if n >= total {
      if Comparator(cmp) && ChunksSorted(f1, n, cmp) {
        OneChunk(f1, n, cmp);
      }
      return step, f1, f2;
    }
    var trg := Round(f1, n, b, cmp);
    var so, h1, h2 := MergeBuffers(trg, f1, b, total, step + 1, cmp);
    stepOut, g1, g2 := so, h2, h1;
    HolderSwap(g1, g2, stepOut - step - 1);
  }

  // ------------------------------------------------------- public operations

  /** The argument checks of ts_algo_sort_file. */
  predicate SortArgsValid(bufsize: nat, filesize: nat, storesize: nat)
    requires storesize > 0
  {
    && bufsize >= storesize
    && bufsize % storesize == 0
    && bufsize >= Block
    && filesize >= bufsize
    && filesize % storesize == 0
  }

  /** Sorting a file (ts_algo_sort_file). `file` is the content of the named
      file, None when it cannot be opened; `nameLen` is the length of its
      name. `canCreate` says whether the first staging file can be created
      for the chunk sort; `canStage` says whether the second staging file
      can be created (creatEmpty) and the four descriptors of the merge
      passes opened, which is tried only after the chunk sort succeeded.
      The result is the content of the staging file the last pass wrote:
      the first one after an even number of passes. */
  method SortFile<T(!new)>(file: Option<seq<T>>, canCreate: bool, canStage: bool, nameLen: nat,
                           bufsize: nat, filesize: nat, storesize: nat,
                           cmp: (T, T) -> Cmp, pick: (nat, nat) -> nat)
    returns (rc: Rc, out: seq<T>)
    requires storesize > 0
    ensures rc == Ok || rc == Invalid || rc == FOpen || rc == FRead
    ensures rc == Invalid <==> !SortArgsValid(bufsize, filesize, storesize) || nameLen >= MaxPath
    ensures rc == FOpen <==> SortArgsValid(bufsize, filesize, storesize) && nameLen < MaxPath
                             && (file.None? || !canCreate || (|file.value| >= filesize / storesize && !canStage))
    ensures rc == FRead <==> SortArgsValid(bufsize, filesize, storesize) && nameLen < MaxPath
                             && file.Some? && canCreate && |file.value| < filesize / storesize
    ensures rc == Ok ==> |out| == filesize / storesize
    ensures rc == Ok ==> multiset(out) == multiset(file.value[..filesize / storesize])
    ensures rc == Ok && Comparator(cmp) ==> Sorted(out, cmp)
  {
    out := [];
    if bufsize < storesize { return Invalid, out; }
    if bufsize % storesize != 0 { return Invalid, out; }
    if bufsize < Block { return Invalid, out; }
    if filesize < bufsize { return Invalid, out; }
    if filesize % storesize != 0 { return Invalid, out; }
    if nameLen >= MaxPath { return Invalid, out; }
    var b := bufsize / storesize;
    var total := filesize / storesize;
    DivPositive(bufsize, storesize);
    var sorted;
    rc, sorted := SortBuffers(file, canCreate, b, total, storesize, cmp, pick);
    if rc != Ok {
      return;
    }
    if !canStage {
      return FOpen, out;
    }
    var stepOut, one, two := MergeBuffers(sorted, [], b, total, 0, cmp);
    out := if stepOut % 2 == 0 then one else two;
  }

  /** A size of at least one record holds at least one record. */
  lemma DivPositive(v: nat, m: nat)
    requires m > 0 && v >= m
    ensures v / m >= 1
  {
  }

  /** Merging two sorted files (ts_algo_merge_files) with memory windows of
      Block bytes. `f1` and `f2` are the contents of the input files, None
      when they cannot be opened, and `canCreate` says whether the output
      can be opened for writing. The output is removed when the merge
      fails. */
  method MergeFiles<T(!new)>(f1: Option<seq<T>>, f2: Option<seq<T>>, canCreate: bool,
                             filesize1: nat, filesize2: nat, storesize: nat, cmp: (T, T) -> Cmp)
    returns (rc: Rc, out: Option<seq<T>>)
    requires storesize > 0 && Block % storesize == 0
    ensures rc == Ok || rc == FOpen || rc == FRead
    ensures rc == FOpen <==> f1.None? || f2.None? || !canCreate
    ensures rc == FRead <==> f1.Some? && f2.Some? && canCreate
                             && (|f1.value| < filesize1 / storesize || |f2.value| < filesize2 / storesize)
    ensures out.Some? <==> rc == Ok
    ensures rc == Ok ==> out.value == Merge(f1.value[..filesize1 / storesize], f2.value[..filesize2 / storesize], cmp, true)
    ensures (rc == Ok && Comparator(cmp) && Sorted(f1.value[..filesize1 / storesize], cmp)
             && Sorted(f2.value[..filesize2 / storesize], cmp)) ==> Sorted(out.value, cmp)
  {
    if f1.None? || f2.None? || !canCreate {
      return FOpen, None;
    }
    var n1, n2 := filesize1 / storesize, filesize2 / storesize;
    BlockHoldsRecord(storesize);
    var base := Block / storesize;
    var merged;
    rc, merged := MergeInto(f1.value, f2.value, n1, n2, base, cmp);
    if rc != Ok {
      return rc, None;
    }
    out := Some(merged);
    if Comparator(cmp) && Sorted(f1.value[..n1], cmp) && Sorted(f2.value[..n2], cmp) {
      MergeSorted(f1.value[..n1], f2.value[..n2], cmp, true);
    }
  }

  /** A record size dividing the block size fits in a block at least once. */
  lemma BlockHoldsRecord(storesize: nat)
    requires storesize > 0 && Block % storesize == 0
    ensures Block / storesize >= 1
  {
  }
}
