/** The bounded-window merge of two record streams (merge in
    src/tsalgo/filesort.c). Sizes are counted in records: a byte size of the
    C code divided by the record size. Each input stream is read through a
    window of at most `base` records, and the output is collected in a buffer
    of `base` records that is written out whenever it is full. */
module FileMerge {
  import opened Base
  import opened Order

  /** Every written block is full. */
  ghost predicate FullBlocks<T>(blocks: seq<seq<T>>, base: nat) {
    forall k :: 0 <= k < |blocks| ==> |blocks[k]| == base
  }

  /** The writes of a merge: full blocks of `base` records, except a last
      one that holds between one and `base` records. */
  ghost predicate Blocked<T>(blocks: seq<seq<T>>, base: nat) {
    forall k :: 0 <= k < |blocks| ==>
      0 < |blocks[k]| <= base && (k < |blocks| - 1 ==> |blocks[k]| == base)
  }

  /** The reading state of one input stream: the window `win` holds the
      records last read, `i` of which have been taken, and `j` records have
      been taken in all. `i == cap` marks the window as used up. */
  datatype Reader<T> = Reader(win: seq<T>, i: nat, j: nat)

  /** The reader of a stream `s` of which `size` records are to be merged,
      with windows of at most `cap` records: the records not yet taken from
      the window are the next records of the stream, and a window shorter
      than `cap` is the last one. */
  ghost predicate Window<T>(s: seq<T>, size: nat, cap: nat, r: Reader<T>) {
    && r.j <= size && r.j <= |s| && r.i <= cap && |r.win| <= cap
    && (r.i < cap ==> r.i <= |r.win| && r.j + |r.win| - r.i <= size && r.j + |r.win| - r.i <= |s|)
    && (r.i < cap && |r.win| < cap ==> r.j + |r.win| - r.i == size)
    && (r.i < cap ==> forall k :: r.i <= k < |r.win| ==> r.win[k] == s[r.j + k - r.i])
  }

  /** The refill step of merge for one stream: when its window is used up
      and records remain, the next `min(cap, size - j)` records are read
      (fillbuf). The read fails when the stream ends early. Afterwards the
      next record to take, if any, is at `win[i]`. */
  method Refill<T>(s: seq<T>, size: nat, cap: nat, r: Reader<T>) returns (rc: Rc, r': Reader<T>)
    requires Window(s, size, cap, r)
    requires cap <= size && (size > 0 ==> cap > 0)
    ensures rc == Ok || rc == FRead
    ensures rc == FRead ==> size > |s|
    ensures rc == Ok ==> Window(s, size, cap, r') && r'.j == r.j
    ensures rc == Ok && r.j < size ==> r'.i < |r'.win| && r'.win[r'.i] == s[r.j]
  {
    rc, r' := Ok, r;
    if r.i == cap && r.j < size {
      var n := if size - r.j > cap then cap else size - r.j;
      if r.j + n > |s| {
        rc := FRead;
        return;
      }
      r' := Reader(s[r.j..r.j + n], 0, r.j);
    }
    if r.j < size && r'.i == |r'.win| {
      assert false;
    }
  }

  /** Taking the next record of a window keeps it a window. */
  function Take<T>(s: seq<T>, size: nat, cap: nat, r: Reader<T>): (r': Reader<T>)
    requires Window(s, size, cap, r)
    requires r.j < size && r.i < |r.win| && r.win[r.i] == s[r.j]
    ensures Window(s, size, cap, r') && r'.j == r.j + 1
  {
    Reader(r.win, r.i + 1, r.j + 1)
  }

  /** What a merge has written so far, `out`, followed by the merge of what
      is left of both inputs, is the merge of the whole inputs (only stated
      when both streams hold their declared sizes). */
  ghost predicate Progress<T(!new)>(one: seq<T>, two: seq<T>, size1: nat, size2: nat, j1: nat, j2: nat, out: seq<T>, cmp: (T, T) -> Cmp) {
    size1 <= |one| && size2 <= |two| && j1 <= size1 && j2 <= size2 ==>
      out + Merge(one[j1..size1], two[j2..size2], cmp, true) == Merge(one[..size1], two[..size2], cmp, true)
  }

  /** Taking the record the merge takes next keeps the progress invariant. */
  lemma ProgressTake<T(!new)>(one: seq<T>, two: seq<T>, size1: nat, size2: nat, j1: nat, j2: nat, out: seq<T>, cmp: (T, T) -> Cmp, first: bool)
    requires Progress(one, two, size1, size2, j1, j2, out, cmp)
    requires j1 <= size1 <= |one| && j2 <= size2 <= |two|
    requires first ==> j1 < size1 && (j2 == size2 || TakesFirst(cmp(one[j1], two[j2]), true))
    requires !first ==> j2 < size2 && (j1 == size1 || !TakesFirst(cmp(one[j1], two[j2]), true))
    ensures first ==> Progress(one, two, size1, size2, j1 + 1, j2, out + [one[j1]], cmp)
    ensures !first ==> Progress(one, two, size1, size2, j1, j2 + 1, out + [two[j2]], cmp)
  {
    var a, b := one[j1..size1], two[j2..size2];
    if first {
      assert a[1..] == one[j1 + 1..size1];
      assert Merge(a, b, cmp, true) == [one[j1]] + Merge(a[1..], b, cmp, true);
    } else {
      assert b[1..] == two[j2 + 1..size2];
      assert Merge(a, b, cmp, true) == [two[j2]] + Merge(a, b[1..], cmp, true);
    }
  }

  /** The choice merge makes between the heads of the two windows: an
      exhausted stream forces the other, otherwise stream 1 is taken unless
      the comparison says Greater. */
  method Choose<T(!new)>(one: seq<T>, two: seq<T>, size1: nat, size2: nat, r1: Reader<T>, r2: Reader<T>, cmp: (T, T) -> Cmp)
    returns (first: bool, x: T)
    requires r1.j <= size1 && r2.j <= size2 && (r1.j < size1 || r2.j < size2)
    requires r1.j < size1 ==> r1.i < |r1.win| && r1.j < |one| && r1.win[r1.i] == one[r1.j]
    requires r2.j < size2 ==> r2.i < |r2.win| && r2.j < |two| && r2.win[r2.i] == two[r2.j]
    ensures first ==> r1.j < size1 && x == one[r1.j] && (r2.j == size2 || TakesFirst(cmp(one[r1.j], two[r2.j]), true))
    ensures !first ==> r2.j < size2 && x == two[r2.j] && (r1.j == size1 || !TakesFirst(cmp(one[r1.j], two[r2.j]), true))
  {
    var c := if r1.j == size1 then Greater else if r2.j == size2 then Less else cmp(r1.win[r1.i], r2.win[r2.i]);
    if c == Less || c == Equal {
      first, x := true, r1.win[r1.i];
    } else {
      first, x := false, r2.win[r2.i];
    }
  }

  /** The state of merge between two rounds of its loop: the two readers,
      the output buffer (its length is the C code's `z`) and the blocks
      written so far. */
  datatype MergeState<T> = MergeState(r1: Reader<T>, r2: Reader<T>, buf3: seq<T>, blocks: seq<seq<T>>)

  /** The loop invariant of merge. */
  ghost predicate Invariant<T(!new)>(one: seq<T>, two: seq<T>, size1: nat, size2: nat, base: nat, st: MergeState<T>, cmp: (T, T) -> Cmp) {
    && Window(one, size1, Min(base, size1), st.r1)
    && Window(two, size2, Min(base, size2), st.r2)
    && |st.buf3| < base
    && FullBlocks(st.blocks, base)
    && Progress(one, two, size1, size2, st.r1.j, st.r2.j, Concat(st.blocks) + st.buf3, cmp)
  }

  /** Takes the record merge chooses next into the output buffer. */
  method Advance<T(!new)>(one: seq<T>, two: seq<T>, size1: nat, size2: nat, base: nat, st: MergeState<T>, cmp: (T, T) -> Cmp)
    returns (st': MergeState<T>)
    requires Window(one, size1, Min(base, size1), st.r1) && Window(two, size2, Min(base, size2), st.r2)
    requires st.r1.j < size1 || st.r2.j < size2
    requires st.r1.j < size1 ==> st.r1.i < |st.r1.win| && st.r1.win[st.r1.i] == one[st.r1.j]
    requires st.r2.j < size2 ==> st.r2.i < |st.r2.win| && st.r2.win[st.r2.i] == two[st.r2.j]
    requires Progress(one, two, size1, size2, st.r1.j, st.r2.j, Concat(st.blocks) + st.buf3, cmp)
    ensures Window(one, size1, Min(base, size1), st'.r1) && Window(two, size2, Min(base, size2), st'.r2)
    ensures st'.r1.j + st'.r2.j == st.r1.j + st.r2.j + 1
    ensures st'.blocks == st.blocks && |st'.buf3| == |st.buf3| + 1
    ensures Progress(one, two, size1, size2, st'.r1.j, st'.r2.j, Concat(st'.blocks) + st'.buf3, cmp)
  {
    var first, x := Choose(one, two, size1, size2, st.r1, st.r2, cmp);
    var out := Concat(st.blocks) + st.buf3;
    if size1 <= |one| && size2 <= |two| {
      ProgressTake(one, two, size1, size2, st.r1.j, st.r2.j, out, cmp, first);
    }
    if first {
      st' := st.(r1 := Take(one, size1, Min(base, size1), st.r1), buf3 := st.buf3 + [x]);
    } else {
      st' := st.(r2 := Take(two, size2, Min(base, size2), st.r2), buf3 := st.buf3 + [x]);
    }
    assert Concat(st'.blocks) + st'.buf3 == out + [x];
  }

  /** Writes the output buffer out when it is full (z == basesize). */
  function Flush<T>(st: MergeState<T>, base: nat): (st': MergeState<T>)
    requires |st.buf3| <= base
    ensures Concat(st'.blocks) + st'.buf3 == Concat(st.blocks) + st.buf3
    ensures |st'.buf3| < base || base == 0
    ensures FullBlocks(st.blocks, base) ==> FullBlocks(st'.blocks, base)
    ensures st'.r1 == st.r1 && st'.r2 == st.r2
  {
    if |st.buf3| == base then st.(buf3 := [], blocks := st.blocks + [st.buf3]) else st
  }

  /** One round of the loop of merge: refill the windows, take one record,
      write the buffer out if it is full. */
  method Step<T(!new)>(one: seq<T>, two: seq<T>, size1: nat, size2: nat, base: nat, st: MergeState<T>, cmp: (T, T) -> Cmp)
    returns (rc: Rc, st': MergeState<T>)
    requires base > 0 && Invariant(one, two, size1, size2, base, st, cmp)
    requires st.r1.j < size1 || st.r2.j < size2
    ensures rc == Ok || rc == FRead
    ensures rc == FRead ==> size1 > |one| || size2 > |two|
    ensures rc == FRead ==> st' == st
    ensures rc == Ok ==> Invariant(one, two, size1, size2, base, st', cmp)
    ensures rc == Ok ==> st'.r1.j + st'.r2.j == st.r1.j + st.r2.j + 1
  {
    var r1, r2;
    st' := st;
    rc, r1 := Refill(one, size1, Min(base, size1), st.r1);
    if rc != Ok {
      return;
    }
    rc, r2 := Refill(two, size2, Min(base, size2), st.r2);
    if rc != Ok {
      return;
    }
    var st1 := Advance(one, two, size1, size2, base, st.(r1 := r1, r2 := r2), cmp);
    st' := Flush(st1, base);
  }

  /** The merge of two streams (merge): `size1` records of `one` and `size2`
      records of `two` are merged, stream 1 winning ties, and an exhausted
      stream forces the other. The result comes out in full blocks of `base`
      records and a final partial block. A stream shorter than its declared
      size makes a read fail. */
  method MergeStreams<T(!new)>(one: seq<T>, two: seq<T>, size1: nat, size2: nat, base: nat, cmp: (T, T) -> Cmp)
    returns (rc: Rc, blocks: seq<seq<T>>)
    requires base > 0
    ensures rc == Ok || rc == FRead
    ensures rc == Ok <==> size1 <= |one| && size2 <= |two|
    ensures rc == Ok ==> Concat(blocks) == Merge(one[..size1], two[..size2], cmp, true)
    ensures Blocked(blocks, base)
  {
    var bs1 := Min(base, size1);
    var bs2 := Min(base, size2);
    var st := MergeState(Reader([], bs1, 0), Reader([], if size2 == 0 then 0 else bs2, 0), [], []);
    rc := Ok;
    while st.r1.j < size1 || st.r2.j < size2
      invariant rc == Ok && Invariant(one, two, size1, size2, base, st, cmp)
      decreases size1 - st.r1.j + size2 - st.r2.j
    {
      rc, st := Step(one, two, size1, size2, base, st, cmp);
      if rc != Ok {
        blocks := st.blocks;
        return;
      }
    }
    blocks := st.blocks;
    if |st.buf3| > 0 {
      blocks := blocks + [st.buf3];
    }
    assert Concat(blocks) == Concat(st.blocks) + st.buf3;
    assert one[st.r1.j..size1] == [] && two[st.r2.j..size2] == [];
  }
}
