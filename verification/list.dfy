/** The doubly linked list of src/tsalgo/list.c, modelled over an explicit
    memory of nodes. A node address is an index into the memory, allocation
    appends a node, and NULL is `None`. Freeing is not modelled: a freed node
    simply stays unreachable. The shape of a list is checked against `ns`,
    the addresses of its nodes from head to last; `Linked` says that the
    header and the `nxt`/`prv` pointers agree with that order, and
    `OrderUnique` shows that the order is fixed by the pointers. */
module LinkedList {
  import opened Base
  import opened Order

  /** A node address or NULL. */
  type Ptr = Option<nat>

  /** A list node: successor, predecessor and content (ts_algo_list_node_t). */
  datatype Node<T> = Node(nxt: Ptr, prv: Ptr, cont: T)

  /** The list header: first and last node and the length (ts_algo_list_t). */
  datatype Header = Header(head: Ptr, last: Ptr, len: nat)

  /** The memory: the node stored at each address. */
  type Heap<T> = seq<Node<T>>

  /** The address at position `k` of `ns`, NULL outside it. */
  function At(ns: seq<nat>, k: int): Ptr {
    if 0 <= k < |ns| then Some(ns[k]) else None
  }

  /** Every address of `ns` holds a node. */
  ghost predicate InHeap<T>(h: Heap<T>, ns: seq<nat>) {
    forall k :: 0 <= k < |ns| ==> ns[k] < |h|
  }

  /** No address occurs twice. */
  ghost predicate Distinct(ns: seq<nat>) {
    forall i, j :: 0 <= i < j < |ns| ==> ns[i] != ns[j]
  }

  /** The node at position `k` points to its neighbours in `ns`, NULL at
      the ends. */
  ghost predicate Wired<T>(h: Heap<T>, ns: seq<nat>, k: nat)
    requires InHeap(h, ns) && k < |ns|
  {
    h[ns[k]].nxt == At(ns, k + 1) && h[ns[k]].prv == At(ns, k - 1)
  }

  /** The shape invariant: `len` counts the nodes, head and last are the ends
      of `ns`, the nodes are distinct, and every node's `nxt` and `prv` point
      to its neighbours in `ns`. */
  ghost predicate Linked<T>(h: Heap<T>, l: Header, ns: seq<nat>) {
    && l.len == |ns|
    && InHeap(h, ns)
    && Distinct(ns)
    && l.head == At(ns, 0)
    && l.last == At(ns, |ns| - 1)
    && (forall k: nat :: k < |ns| ==> Wired(h, ns, k))
  }

  /** The contents of the nodes at `ns`, in order. */
  function Contents<T>(h: Heap<T>, ns: seq<nat>): (s: seq<T>)
    requires InHeap(h, ns)
  {
    seq(|ns|, k requires 0 <= k < |ns| => h[ns[k]].cont)
  }

  /** The pointers fix the order: following `nxt` from the head visits the
      same addresses whatever order satisfies the invariant. */
  lemma OrderUnique<T>(h: Heap<T>, l: Header, a: seq<nat>, b: seq<nat>)
    requires Linked(h, l, a) && Linked(h, l, b)
    ensures a == b
  {
    forall k | 0 <= k < |a| ensures a[k] == b[k] {
      OrderUniqueAt(h, l, a, b, k);
    }
  }

  /** Induction along the list for OrderUnique. */
  lemma {:induction false} OrderUniqueAt<T>(h: Heap<T>, l: Header, a: seq<nat>, b: seq<nat>, k: nat)
    requires Linked(h, l, a) && Linked(h, l, b) && k < |a|
    ensures a[k] == b[k]
  {
    if k > 0 {
      OrderUniqueAt(h, l, a, b, k - 1);
      assert Wired(h, a, k - 1) && Wired(h, b, k - 1);
    }
  }

  /** Nodes outside a list can change without affecting it. */
  lemma Frame<T>(h: Heap<T>, h': Heap<T>, l: Header, ns: seq<nat>)
    requires Linked(h, l, ns) && |h| <= |h'|
    requires forall k :: 0 <= k < |ns| ==> h'[ns[k]] == h[ns[k]]
    ensures Linked(h', l, ns)
    ensures Contents(h', ns) == Contents(h, ns)
  {
    forall k: nat | k < |ns| ensures Wired(h', ns, k) {
      assert Wired(h, ns, k);
    }
  }

  // ------------------------------------------------------------ init, destroy

  /** ts_algo_list_init: the empty list. */
  function Init(): Header {
    Header(None, None, 0)
  }

  /** The initial header is the empty list in any memory. */
  lemma InitEmpty<T>(h: Heap<T>)
    ensures Linked(h, Init(), []) && Contents(h, []) == []
  {
  }

  /** ts_algo_list_destroy: the nodes are released (not modelled) and the
      header is reset; the contents are left alone. */
  function Destroy<T>(h: Heap<T>, l: Header, ghost ns: seq<nat>): (l': Header)
    requires Linked(h, l, ns)
    ensures Linked(h, l', []) && l'.len == 0
  {
    Init()
  }

  /** ts_algo_list_destroyAll: like destroy, and every content is released
      too; `freed` lists the released contents in list order. */
  method DestroyAll<T>(h: Heap<T>, l: Header, ghost ns: seq<nat>) returns (l': Header, freed: seq<T>)
    requires Linked(h, l, ns)
    ensures Linked(h, l', []) && l'.len == 0
    ensures freed == Contents(h, ns)
  {
    freed := [];
    var runner := l.head;
    ghost var i: nat := 0;
    ghost var all := Contents(h, ns);
    while runner.Some?
      invariant i <= |ns| && runner == At(ns, i)
      invariant freed == all[..i]
      decreases |ns| - i
    {
      assert Wired(h, ns, i);
      assert all[..i + 1] == all[..i] + [h[ns[i]].cont];
      freed := freed + [h[runner.value].cont];
      runner := h[runner.value].nxt;
      i := i + 1;
    }
    assert all[..i] == all;
    l' := Destroy(h, l, ns);
  }

  // ------------------------------------------------------------ insert, append

  /** The memory after a node holding `c` is linked in front of the node at
      `first`. */
  function LinkFront<T>(h: Heap<T>, first: nat, c: T): Heap<T>
    requires first < |h|
  {
    h[first := h[first].(prv := Some(|h|))] + [Node(Some(first), None, c)]
  }

  /** Linking in front makes the new node the head and keeps every other node. */
  lemma LinkFrontLinked<T>(h: Heap<T>, l: Header, ns: seq<nat>, c: T)
    requires Linked(h, l, ns) && |ns| > 0
    ensures Linked(LinkFront(h, ns[0], c), l.(head := Some(|h|), len := l.len + 1), [|h|] + ns)
    ensures Contents(LinkFront(h, ns[0], c), [|h|] + ns) == [c] + Contents(h, ns)
    ensures forall a :: 0 <= a < |h| && a !in ns ==> LinkFront(h, ns[0], c)[a] == h[a]
  {
    var h', ms := LinkFront(h, ns[0], c), [|h|] + ns;
    forall j | 1 <= j < |ms| ensures ms[j] < |h| && ms[j] == ns[j - 1] { }
    forall i, j | 0 <= i < j < |ms| ensures ms[i] != ms[j] {
      if i > 0 { assert ms[i] == ns[i - 1]; }
    }
    forall j: nat | j < |ms| ensures Wired(h', ms, j) {
      if j == 1 {
        assert Wired(h, ns, 0);
      } else if j > 1 {
        assert Wired(h, ns, j - 1);
        assert ns[j - 1] != ns[0];
      }
    }
  }

  /** ts_algo_list_insert as written, with `alloc` telling whether the
      allocation of the new node succeeds. On a non-empty list the head
      pointer is overwritten with the result of malloc before it is
      checked, so a failed allocation leaves the header with a NULL head
      but the old length and last node. */
  function InsertAsWritten<T>(h: Heap<T>, l: Header, c: T, alloc: bool, ghost ns: seq<nat>): (r: (Rc, Heap<T>, Header))
    requires Linked(h, l, ns)
    ensures alloc ==> r.0 == Ok && Linked(r.1, r.2, [|h|] + ns)
    ensures alloc ==> Contents(r.1, [|h|] + ns) == [c] + Contents(h, ns)
    ensures alloc ==> |r.1| == |h| + 1 && forall a :: 0 <= a < |h| && a !in ns ==> r.1[a] == h[a]
    ensures !alloc ==> r.0 == Err && r.1 == h
    ensures !alloc && |ns| == 0 ==> r.2 == l
    ensures !alloc && |ns| > 0 ==> r.2.head.None? && r.2.len == l.len > 0
  {
    if l.head.None? then
      if !alloc then (Err, h, l)
      else
        var a := |h|;
        var h' := h + [Node(None, None, c)];
        assert Wired(h', [a], 0);
        (Ok, h', Header(Some(a), Some(a), 1))
    else if !alloc then (Err, h, l.(head := None))
    else
      LinkFrontLinked(h, l, ns, c);
      (Ok, LinkFront(h, l.head.value, c), l.(head := Some(|h|), len := l.len + 1))
  }

  /** A failed insert into a non-empty list leaves a header no order of
      nodes agrees with. */
  lemma InsertFailureCorrupts<T>(h: Heap<T>, l: Header, c: T, ns: seq<nat>, ms: seq<nat>)
    requires Linked(h, l, ns) && |ns| > 0
    ensures !Linked(InsertAsWritten(h, l, c, false, ns).1, InsertAsWritten(h, l, c, false, ns).2, ms)
  {
  }

  /** ts_algo_list_insert with the allocation checked before the header is
      touched: a failed insert leaves the list as it was. */
  function Insert<T>(h: Heap<T>, l: Header, c: T, alloc: bool, ghost ns: seq<nat>): (r: (Rc, Heap<T>, Header))
    requires Linked(h, l, ns)
    ensures alloc ==> r.0 == Ok && Linked(r.1, r.2, [|h|] + ns)
    ensures alloc ==> Contents(r.1, [|h|] + ns) == [c] + Contents(h, ns) && r.2.len == l.len + 1
    ensures alloc ==> |r.1| == |h| + 1 && forall a :: 0 <= a < |h| && a !in ns ==> r.1[a] == h[a]
    ensures !alloc ==> r == (Err, h, l)
  {
    if !alloc then (Err, h, l) else InsertAsWritten(h, l, c, alloc, ns)
  }

  /** The memory after a node holding `c` is linked behind the node at
      `last`. */
  function LinkBack<T>(h: Heap<T>, last: nat, c: T): Heap<T>
    requires last < |h|
  {
    h[last := h[last].(nxt := Some(|h|))] + [Node(None, Some(last), c)]
  }

  /** Linking behind makes the new node the last and keeps every other node. */
  lemma LinkBackLinked<T>(h: Heap<T>, l: Header, ns: seq<nat>, c: T)
    requires Linked(h, l, ns) && |ns| > 0
    ensures Linked(LinkBack(h, ns[|ns| - 1], c), l.(last := Some(|h|), len := l.len + 1), ns + [|h|])
    ensures Contents(LinkBack(h, ns[|ns| - 1], c), ns + [|h|]) == Contents(h, ns) + [c]
    ensures forall a :: 0 <= a < |h| && a !in ns ==> LinkBack(h, ns[|ns| - 1], c)[a] == h[a]
  {
    var n := |ns|;
    var h', ms := LinkBack(h, ns[n - 1], c), ns + [|h|];
    forall j | 0 <= j < n ensures ms[j] < |h| && ms[j] == ns[j] { }
    forall i, j | 0 <= i < j < |ms| ensures ms[i] != ms[j] {
      if j < n { assert ms[j] == ns[j]; }
    }
    forall j: nat | j < |ms| ensures Wired(h', ms, j) {
      if j == n - 1 {
        assert Wired(h, ns, n - 1);
      } else if j < n - 1 {
        assert Wired(h, ns, j);
        assert ns[j] != ns[n - 1];
      }
    }
  }

  /** ts_algo_list_append: an empty list is handled by insert; otherwise a
      node is linked after the last one. A failed allocation only stores
      NULL into the last node's `nxt`, which is NULL already. */
  function Append<T>(h: Heap<T>, l: Header, c: T, alloc: bool, ghost ns: seq<nat>): (r: (Rc, Heap<T>, Header))
    requires Linked(h, l, ns)
    ensures alloc ==> r.0 == Ok && Linked(r.1, r.2, ns + [|h|])
    ensures alloc ==> Contents(r.1, ns + [|h|]) == Contents(h, ns) + [c] && r.2.len == l.len + 1
    ensures alloc ==> |r.1| == |h| + 1 && forall a :: 0 <= a < |h| && a !in ns ==> r.1[a] == h[a]
    ensures !alloc ==> r == (Err, h, l)
  {
    if l.last.None? then
      assert [|h|] + ns == ns + [|h|];
      Insert(h, l, c, alloc, ns)
    else if !alloc then (Err, h, l)
    else
      LinkBackLinked(h, l, ns, c);
      (Ok, LinkBack(h, l.last.value, c), l.(last := Some(|h|), len := l.len + 1))
  }

  // ------------------------------------------------------------ remove

  /** The list without position `k`. */
  function Without(ns: seq<nat>, k: nat): seq<nat>
    requires k < |ns|
  {
    ns[..k] + ns[k + 1..]
  }

  /** Unlinking position `k`: when its predecessor now points forward past
      it and its successor back past it, and no other node of the list
      changed, the remaining nodes form a list. */
  lemma Unlink<T>(h: Heap<T>, h': Heap<T>, l: Header, ns: seq<nat>, k: nat)
    requires Linked(h, l, ns) && k < |ns| && |h'| == |h|
    requires k > 0 ==> h'[ns[k - 1]] == h[ns[k - 1]].(nxt := At(ns, k + 1))
    requires k + 1 < |ns| ==> h'[ns[k + 1]] == h[ns[k + 1]].(prv := At(ns, k - 1))
    requires forall i :: 0 <= i < |ns| && i != k - 1 && i != k + 1 ==> h'[ns[i]] == h[ns[i]]
    ensures var rest := Without(ns, k);
            Linked(h', Header(At(rest, 0), At(rest, |rest| - 1), |rest|), rest)
    ensures Contents(h', Without(ns, k)) == Contents(h, ns)[..k] + Contents(h, ns)[k + 1..]
  {
    var rest := Without(ns, k);
    forall j | 0 <= j < |rest| ensures rest[j] == (if j < k then ns[j] else ns[j + 1]) && rest[j] < |h'| { }
    forall i, j | 0 <= i < j < |rest| ensures rest[i] != rest[j] { }
    forall j: nat | j < |rest| ensures Wired(h', rest, j) {
      if j < k {
        assert Wired(h, ns, j);
        UnlinkBefore(h, h', ns, k, j);
      } else {
        assert Wired(h, ns, j + 1);
        UnlinkAfter(h, h', ns, k, j);
      }
    }
    var a, b := Contents(h', rest), Contents(h, ns)[..k] + Contents(h, ns)[k + 1..];
    assert forall j :: 0 <= j < |rest| ==> a[j] == b[j];
  }

  /** A node before the unlinked one: only the direct predecessor changed,
      and it now points past position `k`. */
  lemma UnlinkBefore<T>(h: Heap<T>, h': Heap<T>, ns: seq<nat>, k: nat, j: nat)
    requires InHeap(h, ns) && |h'| == |h| && j < k < |ns|
    requires Wired(h, ns, j)
    requires j + 1 < k ==> h'[ns[j]] == h[ns[j]]
    requires j + 1 == k ==> h'[ns[j]] == h[ns[j]].(nxt := At(ns, k + 1))
    ensures InHeap(h', Without(ns, k)) && Wired(h', Without(ns, k), j)
  {
    var rest := Without(ns, k);
    assert rest[j] == ns[j];
    assert At(rest, j - 1) == At(ns, j - 1);
    assert At(rest, j + 1) == if j + 1 < k then At(ns, j + 1) else At(ns, j + 2);
  }

  /** A node after the unlinked one: only the direct successor changed, and
      it now points back past position `k`. */
  lemma UnlinkAfter<T>(h: Heap<T>, h': Heap<T>, ns: seq<nat>, k: nat, j: nat)
    requires InHeap(h, ns) && |h'| == |h| && k <= j < |ns| - 1
    requires Wired(h, ns, j + 1)
    requires j > k ==> h'[ns[j + 1]] == h[ns[j + 1]]
    requires j == k ==> h'[ns[j + 1]] == h[ns[j + 1]].(prv := At(ns, k - 1))
    ensures InHeap(h', Without(ns, k)) && Wired(h', Without(ns, k), j)
  {
    var rest := Without(ns, k);
    assert rest[j] == ns[j + 1];
    assert At(rest, j + 1) == At(ns, j + 2);
    assert At(rest, j - 1) == if j > k then At(ns, j) else At(ns, k - 1);
  }

  /** ts_algo_list_remove as written, for `node`, which is NULL or the node
      at position `k`. NULL is compared with the head before it is checked,
      so it is dereferenced whether the list is empty (line 98) or not
      (line 111): None. Otherwise the head case unlinks the node and stops
      unless it is also the last one; the last case moves `last` back and
      clears its `nxt`; an inner node is bridged. When the node is the only
      one, `last` becomes NULL and is then dereferenced: None. The removed
      node itself is not changed. */
  function RemoveAsWritten<T>(h: Heap<T>, l: Header, node: Ptr, ghost ns: seq<nat>, ghost k: nat): (r: Option<(Heap<T>, Header)>)
    requires Linked(h, l, ns) && (node.Some? ==> k < |ns| && ns[k] == node.value)
    ensures r.None? <==> node.None? || |ns| == 1
    ensures r.Some? ==> node.Some? && Linked(r.value.0, r.value.1, Without(ns, k)) && r.value.1.len == l.len - 1
    ensures r.Some? ==> node.Some? && Contents(r.value.0, Without(ns, k)) == Contents(h, ns)[..k] + Contents(h, ns)[k + 1..]
  {
    if node.None? then None
    else
      var n := node.value;
      assert Wired(h, ns, k);
      if l.head == Some(n) && l.last != Some(n) then
        var nx := h[n].nxt.value;
        var h' := h[nx := h[nx].(prv := None)];
        Unlink(h, h', l, ns, k);
        Some((h', l.(head := Some(nx), len := l.len - 1)))
      else if l.last == Some(n) then
        if h[n].prv.None? then
          None
        else
          var pv := h[n].prv.value;
          var h' := h[pv := h[pv].(nxt := None)];
          Unlink(h, h', l, ns, k);
          Some((h', l.(last := Some(pv), len := l.len - 1)))
      else
        var pv, nx := h[n].prv.value, h[n].nxt.value;
        var h1 := h[pv := h[pv].(nxt := Some(nx))];
        var h' := h1[nx := h1[nx].(prv := Some(pv))];
        Unlink(h, h', l, ns, k);
        Some((h', l.(len := l.len - 1)))
  }

  /** ts_algo_list_remove with NULL and the sole node handled: removing
      NULL changes nothing, and removing the sole node empties the list. */
  function Remove<T>(h: Heap<T>, l: Header, node: Ptr, ghost ns: seq<nat>, ghost k: nat): (r: (Heap<T>, Header))
    requires Linked(h, l, ns) && (node.Some? ==> k < |ns| && ns[k] == node.value)
    ensures node.None? ==> r == (h, l)
    ensures node.Some? ==> Linked(r.0, r.1, Without(ns, k)) && r.1.len == l.len - 1
    ensures node.Some? ==> Contents(r.0, Without(ns, k)) == Contents(h, ns)[..k] + Contents(h, ns)[k + 1..]
  {
    if node.None? then (h, l)
    else if l.head == node && l.last == node then
      assert Without(ns, k) == [];
      (h, Init())
    else
      RemoveAsWritten(h, l, node, ns, k).value
  }

  /** Removing the head of an empty list, that is NULL: as written the
      remove dereferences NULL, where the corrected remove leaves the empty
      list as it was. */
  lemma RemoveNullFromEmpty<T>(h: Heap<T>)
    ensures RemoveAsWritten(h, Init(), Init().head, [], 0).None?
    ensures Remove(h, Init(), Init().head, [], 0) == (h, Init())
    ensures Linked(h, Init(), []) && Contents(h, []) == []
  {
    InitEmpty(h);
  }

  // ------------------------------------------------------------ copy, reverse

  /** The addresses `from`, `from + 1`, ..., `from + n - 1`. */
  function Range(from: nat, n: nat): (r: seq<nat>)
    ensures |r| == n && forall k :: 0 <= k < n ==> r[k] == from + k
  {
    seq(n, k => from + k)
  }

  /** ts_algo_list_copy: a runner walks the list and appends each content to
      a new list, whose nodes are fresh and follow in memory order. The
      original list is not changed. */
  method Copy<T>(h: Heap<T>, l: Header, ghost ns: seq<nat>) returns (h': Heap<T>, c: Header)
    requires Linked(h, l, ns)
    ensures |h'| == |h| + |ns| && h'[..|h|] == h
    ensures Linked(h', c, Range(|h|, |ns|))
    ensures Contents(h', Range(|h|, |ns|)) == Contents(h, ns)
    ensures Linked(h', l, ns) && Contents(h', ns) == Contents(h, ns)
  {
    h', c := h, Init();
    var runner := l.head;
    ghost var i: nat := 0;
    ghost var all := Contents(h, ns);
    while runner.Some?
      invariant i <= |ns| && runner == At(ns, i)
      invariant |h'| == |h| + i && h'[..|h|] == h
      invariant Linked(h', c, Range(|h|, i))
      invariant Contents(h', Range(|h|, i)) == all[..i]
      decreases |ns| - i
    {
      assert Wired(h, ns, i);
      var x := h[runner.value].cont;
      ghost var before := h';
      var res := Append(h', c, x, true, Range(|h|, i));
      var rc;
      rc, h', c := res.0, res.1, res.2;
      FreshStep(h, before, h', Range(|h|, i));
      RangeStep(|h|, i);
      PrefixStep(all, i);
      runner := h[runner.value].nxt;
      i := i + 1;
    }
    assert all[..|ns|] == all;
    Frame(h, h', l, ns);
  }

  /** An allocation that changes only nodes of a list living above the old
      memory keeps the old memory. */
  lemma FreshStep<T>(h: Heap<T>, before: Heap<T>, after: Heap<T>, ms: seq<nat>)
    requires |before| >= |h| && before[..|h|] == h && |after| >= |before|
    requires forall k :: 0 <= k < |ms| ==> ms[k] >= |h|
    requires forall a :: 0 <= a < |before| && a !in ms ==> after[a] == before[a]
    ensures after[..|h|] == h
  {
    forall a | 0 <= a < |h| ensures after[a] == h[a] {
      assert before[a] == h[a];
    }
  }

  /** One more address at the back of a range. */
  lemma RangeStep(from: nat, n: nat)
    ensures Range(from, n) + [from + n] == Range(from, n + 1)
  {
    var a, b := Range(from, n) + [from + n], Range(from, n + 1);
    forall k | 0 <= k <= n ensures a[k] == b[k] {
      if k < n { assert a[k] == Range(from, n)[k]; }
    }
  }

  /** One more address at the front of a downward range. */
  lemma DownwardStep(from: nat, n: nat)
    ensures [from + n] + Downward(from, n) == Downward(from, n + 1)
  {
    var a, b := [from + n] + Downward(from, n), Downward(from, n + 1);
    forall k | 0 <= k <= n ensures a[k] == b[k] {
      if k > 0 { assert a[k] == Downward(from, n)[k - 1]; }
    }
  }

  lemma PrefixStep<T>(s: seq<T>, i: nat)
    requires i < |s|
    ensures s[..i + 1] == s[..i] + [s[i]]
  {
  }

  /** The addresses `from + n - 1`, ..., `from`: where reverse puts its
      nodes, each insert going to the front. */
  function Downward(from: nat, n: nat): (r: seq<nat>)
    ensures |r| == n && forall k :: 0 <= k < n ==> r[k] == from + n - 1 - k
  {
    seq(n, k requires 0 <= k < n => from + n - 1 - k)
  }

  /** What reverse has built after `i` steps: the first `i` contents of
      the list in reverse order, in fresh nodes above the old memory. */
  ghost predicate Reversed<T(!new)>(h: Heap<T>, all: seq<T>, h': Heap<T>, c: Header, i: nat)
  {
    i <= |all| && |h'| == |h| + i && h'[..|h|] == h
    && Linked(h', c, Downward(|h|, i))
    && Contents(h', Downward(|h|, i)) == Reverse(all[..i])
  }

  /** Inserting the next content at the head extends the reversed prefix. */
  lemma ReversedStep<T(!new)>(h: Heap<T>, all: seq<T>, h': Heap<T>, c: Header, i: nat)
    requires Reversed(h, all, h', c, i) && i < |all|
    ensures var res := Insert(h', c, all[i], true, Downward(|h|, i));
            Reversed(h, all, res.1, res.2, i + 1)
  {
    var res := Insert(h', c, all[i], true, Downward(|h|, i));
    FreshStep(h, h', res.1, Downward(|h|, i));
    DownwardStep(|h|, i);
    PrefixStep(all, i);
    ReverseSnoc(all[..i], all[i]);
  }

  /** ts_algo_list_reverse: NULL for an empty list; otherwise a runner walks
      the list and inserts each content at the head of a new list, which
      therefore holds the contents in reverse order. */
  method ReverseList<T(!new)>(h: Heap<T>, l: Header, ghost ns: seq<nat>) returns (r: Option<(Heap<T>, Header)>)
    requires Linked(h, l, ns)
    ensures r.None? <==> l.len == 0
    ensures r.Some? ==> Linked(r.value.0, r.value.1, Downward(|h|, |ns|))
    ensures r.Some? ==> Contents(r.value.0, Downward(|h|, |ns|)) == Reverse(Contents(h, ns))
    ensures r.Some? ==> Linked(r.value.0, l, ns) && Contents(r.value.0, ns) == Contents(h, ns)
  {
    if l.len == 0 {
      return None;
    }
    var h', c := h, Init();
    var runner := l.head;
    ghost var i: nat := 0;
    ghost var all := Contents(h, ns);
    assert Reversed(h, all, h', c, 0);
    while runner.Some?
      invariant i <= |ns| && runner == At(ns, i)
      invariant Reversed(h, all, h', c, i)
      decreases |ns| - i
    {
      assert Wired(h, ns, i);
      var x := h[runner.value].cont;
      assert x == all[i];
      ReversedStep(h, all, h', c, i);
      var res := Insert(h', c, x, true, Downward(|h|, i));
      var rc;
      rc, h', c := res.0, res.1, res.2;
      runner := h[runner.value].nxt;
      i := i + 1;
    }
    assert all[..|ns|] == all;
    Frame(h, h', l, ns);
    r := Some((h', c));
  }

  /** Reversing a sequence with one more element at the end puts it first. */
  lemma ReverseSnoc<T(!new)>(s: seq<T>, x: T)
    ensures Reverse(s + [x]) == [x] + Reverse(s)
  {
    var a, b := Reverse(s + [x]), [x] + Reverse(s);
    assert forall k :: 0 <= k < |a| ==> a[k] == b[k];
  }

  // ------------------------------------------------------------ promote, degrade

  /** ts_algo_list_promote, as the tests show it: the content at position
      `k` changes places with its predecessor; the head stays where it is. */
  function Promote<T>(s: seq<T>, k: nat): (r: seq<T>)
    requires k < |s|
    ensures |r| == |s| && multiset(r) == multiset(s)
    ensures k > 0 ==> r[k - 1] == s[k] && r[k] == s[k - 1]
    ensures forall i :: 0 <= i < |s| && i != k && i != k - 1 ==> r[i] == s[i]
  {
    if k == 0 then s
    else
      var r := s[k - 1 := s[k]][k := s[k - 1]];
      SwapPermutes(s, k - 1, k);
      r
  }

  /** ts_algo_list_degrade, as the tests show it: the content at position
      `k` changes places with its successor; the last stays where it is. */
  function Degrade<T>(s: seq<T>, k: nat): (r: seq<T>)
    requires k < |s|
    ensures |r| == |s| && multiset(r) == multiset(s)
    ensures k + 1 < |s| ==> r[k + 1] == s[k] && r[k] == s[k + 1]
    ensures forall i :: 0 <= i < |s| && i != k && i != k + 1 ==> r[i] == s[i]
  {
    if k + 1 == |s| then s
    else
      var r := s[k := s[k + 1]][k + 1 := s[k]];
      SwapPermutes(s, k, k + 1);
      r
  }

  /** Swapping two positions keeps the multiset. */
  lemma SwapPermutes<T>(s: seq<T>, i: nat, j: nat)
    requires i < j < |s|
    ensures multiset(s[i := s[j]][j := s[i]]) == multiset(s)
  {
    var t := s[i := s[j]];
    assert multiset(t) == multiset(s) - multiset{s[i]} + multiset{s[j]};
  }

  /** Degrading the predecessor undoes a promotion. */
  lemma DegradeUndoesPromote<T>(s: seq<T>, k: nat)
    requires 0 < k < |s|
    ensures Degrade(Promote(s, k), k - 1) == s
  {
    var p := Promote(s, k);
    var a := Degrade(p, k - 1);
    forall i | 0 <= i < |s| ensures a[i] == s[i] {
      if i != k && i != k - 1 { assert a[i] == p[i]; }
    }
  }

  /** Promoting the successor undoes a degradation. */
  lemma PromoteUndoesDegrade<T>(s: seq<T>, k: nat)
    requires 0 < k < |s|
    ensures Promote(Degrade(s, k - 1), k) == s
  {
    var d := Degrade(s, k - 1);
    var b := Promote(d, k);
    forall i | 0 <= i < |s| ensures b[i] == s[i] {
      if i != k && i != k - 1 { assert b[i] == d[i]; }
    }
  }
}
