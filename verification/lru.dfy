/** The LRU cache of src/tsalgo/lru.c: an AVL tree indexes the cached
    contents and a list keeps them most recent first; every content has a
    resident flag, and resident entries are never evicted. The C code keeps
    one lru_node_t per content, shared by the tree and the list; here the
    tree holds the contents and the list holds the entries. */
module LruCache {
  import opened Base
  import opened Order
  import opened AvlTree
  import opened TreeOrder
  import TreeHead
  import LinkedList

  /** lru_node_t without its list pointer: a content and its flag. */
  datatype Entry<T> = Entry(cont: T, resident: bool)

  /** ts_algo_lru_t: the index, the list (head first) and the capacity;
      a capacity of 0 (TS_ALGO_LRU_INF) means unbounded. */
  datatype Lru<T> = Lru(tree: TreeHead.Head<T>, list: seq<Entry<T>>, max: TreeHead.U32)

  /** The contents of a list of entries. */
  function Conts<T>(s: seq<Entry<T>>): (r: seq<T>)
    ensures |r| == |s| && forall i :: 0 <= i < |s| ==> r[i] == s[i].cont
  {
    seq(|s|, i requires 0 <= i < |s| => s[i].cont)
  }

  lemma ContsAppend<T>(a: seq<Entry<T>>, b: seq<Entry<T>>)
    ensures Conts(a + b) == Conts(a) + Conts(b)
  {
    assert forall i :: 0 <= i < |a + b| ==> Conts(a + b)[i] == (Conts(a) + Conts(b))[i];
  }

  /** The tree indexes exactly the contents of the list. */
  ghost predicate Inv<T(!new)>(c: Lru<T>, cmp: (T, T) -> Cmp) {
    TreeHead.Valid(c.tree, cmp) && multiset(InOrder(c.tree.root)) == multiset(Conts(c.list))
  }

  /** The tree's count is the length of the list. */
  lemma InvCount<T(!new)>(c: Lru<T>, cmp: (T, T) -> Cmp)
    requires Inv(c, cmp)
    ensures c.tree.count as int == |c.list|
  {
    assert |multiset(InOrder(c.tree.root))| == |multiset(Conts(c.list))|;
  }

  /** The first entry whose content compares Equal to `x`: the reference
      for the tree lookup. */
  function Lookup<T>(s: seq<Entry<T>>, x: T, cmp: (T, T) -> Cmp): (r: Option<nat>)
    ensures r.Some? ==> r.value < |s| && cmp(x, s[r.value].cont) == Equal
    ensures r.Some? ==> forall i :: 0 <= i < r.value ==> cmp(x, s[i].cont) != Equal
    ensures r.None? ==> forall i :: 0 <= i < |s| ==> cmp(x, s[i].cont) != Equal
  {
    if |s| == 0 then None
    else if cmp(x, s[0].cont) == Equal then Some(0)
    else
      match Lookup(s[1..], x, cmp)
      case None => None
      case Some(k) => Some(k + 1)
  }

  /** Under the invariant the tree finds what the list holds: the content
      of the first entry comparing Equal, or nothing. */
  lemma FindInList<T(!new)>(c: Lru<T>, x: T, cmp: (T, T) -> Cmp)
    requires Comparator(cmp) && Inv(c, cmp)
    ensures TreeHead.TreeFind(c.tree, x, cmp) == match Lookup(c.list, x, cmp)
                                                case None => None
                                                case Some(k) => Some(c.list[k].cont)
  {
    var s := Conts(c.list);
    TreeHead.TreeFindSpec(c.tree, x, cmp);
    match Lookup(c.list, x, cmp)
    case None =>
      forall e | e in InOrder(c.tree.root) ensures cmp(x, e) != Equal {
        assert e in multiset(s);
        var i :| 0 <= i < |s| && s[i] == e;
      }
    case Some(k) =>
      assert s[k] in multiset(InOrder(c.tree.root));
  }

  /** Looking up the content of the first entry comparing Equal to `x`
      leads back to that entry. */
  lemma LookupAgain<T(!new)>(s: seq<Entry<T>>, x: T, cmp: (T, T) -> Cmp)
    requires Comparator(cmp) && Lookup(s, x, cmp).Some?
    ensures Lookup(s, s[Lookup(s, x, cmp).value].cont, cmp) == Lookup(s, x, cmp)
  {
    var k := Lookup(s, x, cmp).value;
    var e := s[k].cont;
    ComparatorEqual(cmp, e, e);
    var j := Lookup(s, e, cmp);
    if j.value < k {
      ComparatorEqual(cmp, x, e);
      ComparatorEqual(cmp, e, s[j.value].cont);
      EqualTrans(cmp, x, s[j.value].cont, e);
      assert false;
    }
  }

  // ------------------------------------------------------------ init

  /** ts_algo_lru_init (src/tsalgo/lru.c:99-124): an empty cache of the
      given capacity; Err when the tree cannot be set up. */
  function Init<T>(max: TreeHead.U32, alloc: bool): (r: (Rc, Lru<T>))
    ensures r.0 == Ok <==> alloc
    ensures r.1.list == [] && r.1.max == max
  {
    var t := TreeHead.Init<T>(alloc);
    (t.0, Lru(t.1, [], max))
  }

  lemma InitInv<T(!new)>(max: TreeHead.U32, alloc: bool, cmp: (T, T) -> Cmp)
    ensures Inv(Init<T>(max, alloc).1, cmp)
  {
    TreeHead.InitValid<T>(alloc, cmp);
  }

  // ------------------------------------------------------------ get

  /** ts_algo_lru_get (src/tsalgo/lru.c:139-151): find the content in the
      tree and move its entry one place toward the head. */
  function Get<T>(c: Lru<T>, x: T, cmp: (T, T) -> Cmp): (r: (Option<T>, Lru<T>))
    ensures r.1.tree == c.tree && r.1.max == c.max && |r.1.list| == |c.list|
    ensures r.0.None? ==> r.1 == c
  {
    match TreeHead.TreeFind(c.tree, x, cmp)
    case None => (None, c)
    case Some(e) =>
      match Lookup(c.list, e, cmp)
      case None => (Some(e), c)
      case Some(k) => (Some(e), c.(list := LinkedList.Promote(c.list, k)))
  }

  lemma ContsPromote<T>(s: seq<Entry<T>>, k: nat)
    requires k < |s|
    ensures Conts(LinkedList.Promote(s, k)) == LinkedList.Promote(Conts(s), k)
  {
    var a, b := Conts(LinkedList.Promote(s, k)), LinkedList.Promote(Conts(s), k);
    assert forall i :: 0 <= i < |a| ==> a[i] == b[i];
  }

  /** Get answers with the content of the first entry comparing Equal, or
      with nothing and no change; a hit swaps the entry with its
      predecessor and keeps the index consistent. */
  lemma GetSpec<T(!new)>(c: Lru<T>, x: T, cmp: (T, T) -> Cmp)
    requires Comparator(cmp) && Inv(c, cmp)
    ensures var r := Get(c, x, cmp);
            && Inv(r.1, cmp)
            && match Lookup(c.list, x, cmp)
               case None => r == (None, c)
               case Some(k) => r.0 == Some(c.list[k].cont) && r.1.list == LinkedList.Promote(c.list, k)
  {
    FindInList(c, x, cmp);
    if Lookup(c.list, x, cmp).Some? {
      var k := Lookup(c.list, x, cmp).value;
      LookupAgain(c.list, x, cmp);
      ContsPromote(c.list, k);
    }
  }

  // ------------------------------------------------------------ eviction

  /** The number of resident entries at the end of the list. */
  function TrailingResidents<T>(s: seq<Entry<T>>): (j: nat)
    ensures j <= |s|
    ensures forall i :: |s| - j <= i < |s| ==> s[i].resident
    ensures j < |s| ==> !s[|s| - 1 - j].resident
  {
    if |s| == 0 || !s[|s| - 1].resident then 0
    else TrailingResidents(s[..|s| - 1]) + 1
  }

  /** promoteResident and promoteResidents (src/tsalgo/lru.c:157-188), from
      iteration `i` on: while the last entry is resident it moves to the
      head; the answer says whether a non-resident entry reached the end.
      A list of one entry, or a full turn of resident entries, answers no. */
  function Rotate<T>(s: seq<Entry<T>>, i: nat): (r: (seq<Entry<T>>, bool))
    decreases |s| - i
  {
    if i >= |s| then (s, false)
    else if |s| == 1 then (s, false)
    else if !s[|s| - 1].resident then (s, true)
    else Rotate([s[|s| - 1]] + s[..|s| - 1], i + 1)
  }

  /** The list after `i` resident entries moved from the end to the head. */
  function Turned<T>(s: seq<Entry<T>>, i: nat): seq<Entry<T>>
    requires i <= |s|
  {
    s[|s| - i..] + s[..|s| - i]
  }

  lemma TurnedStep<T>(s: seq<Entry<T>>, i: nat)
    requires i < |s|
    ensures var u := Turned(s, i);
            u[|u| - 1] == s[|s| - 1 - i] && [u[|u| - 1]] + u[..|u| - 1] == Turned(s, i + 1)
  {
    var u := Turned(s, i);
    var v := [u[|u| - 1]] + u[..|u| - 1];
    var w := Turned(s, i + 1);
    assert forall m :: 0 <= m < |v| ==> v[m] == w[m];
  }

  /** The loop from iteration `i`, after `i` resident entries have moved. */
  lemma {:induction false} RotateFrom<T>(s: seq<Entry<T>>, i: nat)
    requires |s| >= 2 && i <= TrailingResidents(s)
    ensures var j := TrailingResidents(s);
            Rotate(Turned(s, i), i) == if j == |s| then (s, false) else (Turned(s, j), true)
    decreases |s| - i
  {
    var j := TrailingResidents(s);
    var u := Turned(s, i);
    if i == |s| {
      assert u == s;
    } else {
      TurnedStep(s, i);
      if i < j {
        RotateFrom(s, i + 1);
      }
    }
  }

  /** The loop in closed form: the resident entries at the end move to the
      head, in order, and a non-resident entry ends up last if there is one. */
  lemma RotateSpec<T>(s: seq<Entry<T>>)
    ensures var j := TrailingResidents(s);
            Rotate(s, 0) == if |s| < 2 || j == |s| then (s, false) else (Turned(s, j), true)
  {
    if |s| >= 2 {
      assert Turned(s, 0) == s;
      RotateFrom(s, 0);
    }
  }

  /** lruremove (src/tsalgo/lru.c:194-203): when a bounded cache is full,
      rotate resident entries to the head and evict the entry then last,
      from the list and from the tree. The result is the cache and the
      content handed to onDelete, if any. */
  function Evict<T>(c: Lru<T>, cmp: (T, T) -> Cmp): (r: (Lru<T>, Option<T>))
    ensures r.0.max == c.max
  {
    if c.max == 0 || |c.list| < c.max as int then (c, None)
    else if |c.list| == 0 then (c, None)
    else
      var p := Rotate(c.list, 0);
      if !p.1 then (c.(list := p.0), None)
      else if |p.0| == 0 then (c, None)
      else
        var d := TreeHead.TreeDelete(c.tree, p.0[|p.0| - 1].cont, cmp);
        (c.(list := p.0[..|p.0| - 1], tree := d.0), d.1)
  }

  /** What eviction does to the list, on sequences: the reference for
      Evict, with the position of the evicted entry. Nothing happens in an
      unbounded or not yet full cache, in a cache of one entry, or when
      every entry is resident; otherwise the resident entries at the end
      move to the head and the entry before them is dropped. */
  function Evicted<T>(s: seq<Entry<T>>, max: nat): (r: (seq<Entry<T>>, Option<nat>))
  {
    var j := TrailingResidents(s);
    if max == 0 || |s| < max || |s| < 2 || j == |s| then (s, None)
    else (s[|s| - j..] + s[..|s| - j - 1], Some(|s| - j - 1))
  }

  /** What eviction guarantees: only a full bounded cache with two entries
      or more loses one; the lost entry is the last non-resident one, the
      resident entries behind it move to the head in order, and nothing
      else changes; so a resident entry is never lost, and the head entry
      is lost only when every other entry is resident. */
  lemma EvictedSpec<T>(s: seq<Entry<T>>, max: nat)
    ensures var r := Evicted(s, max);
            && (max == 0 || |s| < max || |s| < 2 ==> r == (s, None))
            && (r.1.None? ==> r.0 == s && (max > 0 && |s| >= max && |s| >= 2 ==> forall i :: 0 <= i < |s| ==> s[i].resident))
            && (r.1.Some? ==> var k := r.1.value;
                              && k < |s| && !s[k].resident && r.0 == s[k + 1..] + s[..k]
                              && (forall i :: k < i < |s| ==> s[i].resident)
                              && multiset(r.0) + multiset{s[k]} == multiset(s))
            && (r.1 == Some(0) ==> forall i :: 1 <= i < |s| ==> s[i].resident)
  {
    var j := TrailingResidents(s);
    var r := Evicted(s, max);
    if r.1.Some? {
      var k := |s| - j - 1;
      assert s == s[..k] + [s[k]] + s[k + 1..];
    }
  }

  /** Dropping the entry at `k` after turning the entries behind it to the
      head loses exactly its content. */
  lemma ContsDrop<T>(s: seq<Entry<T>>, k: nat)
    requires k < |s|
    ensures multiset(Conts(s[k + 1..] + s[..k])) + multiset{s[k].cont} == multiset(Conts(s))
  {
    assert s == s[..k] + [s[k]] + s[k + 1..];
    ContsAppend(s[k + 1..], s[..k]);
    ContsAppend(s[..k] + [s[k]], s[k + 1..]);
    ContsAppend(s[..k], [s[k]]);
  }

  /** Eviction does to the list what Evicted says, hands the evicted
      content to onDelete, and removes it from the tree as well. */
  lemma EvictSpec<T(!new)>(c: Lru<T>, cmp: (T, T) -> Cmp)
    requires Comparator(cmp) && Inv(c, cmp)
    ensures var r := Evict(c, cmp);
            var e := Evicted(c.list, c.max as int);
            && Inv(r.0, cmp) && r.0.list == e.0
            && r.1 == if e.1.Some? then Some(c.list[e.1.value].cont) else None
  {
    var s := c.list;
    var j := TrailingResidents(s);
    if c.max == 0 || |s| < c.max as int || |s| < 2 || j == |s| {
      EvictNothing(c, cmp);
    } else {
      var k := |s| - j - 1;
      EvictShape(c, cmp);
      DropKeepsInv(c, k, cmp);
      var d := TreeHead.TreeDelete(c.tree, s[k].cont, cmp);
      var c' := c.(list := s[k + 1..] + s[..k], tree := d.0);
      assert Inv(c', cmp);
      assert Evict(c, cmp) == (c', d.1);
      assert Evicted(s, c.max as int) == (s[k + 1..] + s[..k], Some(k));
    }
  }

  lemma EvictNothing<T>(c: Lru<T>, cmp: (T, T) -> Cmp)
    requires var s := c.list;
             c.max == 0 || |s| < c.max as int || |s| < 2 || TrailingResidents(s) == |s|
    ensures Evict(c, cmp) == (c, None)
  {
    RotateSpec(c.list);
  }

  /** The shape of a single eviction: the turned list without its last
      entry, and the tree without that entry's content. */
  lemma EvictShape<T>(c: Lru<T>, cmp: (T, T) -> Cmp)
    requires var s := c.list;
             !(c.max == 0 || |s| < c.max as int || |s| < 2 || TrailingResidents(s) == |s|)
    ensures var s := c.list;
            var k := |s| - TrailingResidents(s) - 1;
            var d := TreeHead.TreeDelete(c.tree, s[k].cont, cmp);
            Evict(c, cmp) == (c.(list := s[k + 1..] + s[..k], tree := d.0), d.1)
  {
    var s := c.list;
    var j := TrailingResidents(s);
    RotateSpec(s);
    TurnedLast(s, j);
  }

  /** Dropping the entry at `k` from the list, and its content from the
      tree, keeps the invariant. */
  lemma DropKeepsInv<T(!new)>(c: Lru<T>, k: nat, cmp: (T, T) -> Cmp)
    requires Comparator(cmp) && Inv(c, cmp) && k < |c.list|
    ensures var s := c.list;
            var d := TreeHead.TreeDelete(c.tree, s[k].cont, cmp);
            && Inv(c.(list := s[k + 1..] + s[..k], tree := d.0), cmp) && d.1 == Some(s[k].cont)
  {
    var s := c.list;
    var v := s[k].cont;
    assert Conts(s)[k] == v;
    EvictFromTree(c.tree, v, cmp);
    ContsDrop(s, k);
    var d := TreeHead.TreeDelete(c.tree, v, cmp);
    MultisetCancel(multiset(InOrder(d.0.root)), multiset(Conts(s[k + 1..] + s[..k])), v);
  }

  lemma MultisetCancel<T>(a: multiset<T>, b: multiset<T>, v: T)
    requires a + multiset{v} == b + multiset{v}
    ensures a == b
  {
    forall e ensures a[e] == b[e] {
      assert (a + multiset{v})[e] == (b + multiset{v})[e];
    }
  }

  /** After the resident entries at the end have moved to the head, the
      entry before them is last. */
  lemma TurnedLast<T>(s: seq<Entry<T>>, j: nat)
    requires j < |s|
    ensures var u := Turned(s, j);
            u[|u| - 1] == s[|s| - j - 1] && u[..|u| - 1] == s[|s| - j..] + s[..|s| - j - 1]
  {
  }

  /** Deleting a content the tree holds hands that very content to
      onDelete and removes just it. */
  lemma EvictFromTree<T(!new)>(h: TreeHead.Head<T>, v: T, cmp: (T, T) -> Cmp)
    requires Comparator(cmp) && TreeHead.Valid(h, cmp) && v in multiset(InOrder(h.root))
    ensures var d := TreeHead.TreeDelete(h, v, cmp);
            && TreeHead.Valid(d.0, cmp) && d.1 == Some(v)
            && multiset(InOrder(d.0.root)) + multiset{v} == multiset(InOrder(h.root))
  {
    ComparatorEqual(cmp, v, v);
    TreeHead.TreeFindSpec(h, v, cmp);
    TreeHead.TreeDeleteValid(h, v, cmp);
    TreeHead.TreeDeleteRemoves(h, v, cmp);
  }

  // ------------------------------------------------------------ add

  /** The allocations add2lru depends on, and whether each succeeds: the
      lru node, the tree node and the list node. */
  datatype Memory = Memory(node: bool, treeNode: bool, listNode: bool)

  /** add2lru with ts_algo_lru_add and ts_algo_lru_addResident
      (src/tsalgo/lru.c:209-249), for a key the cache may already hold. A
      failed allocation of the lru node is NoMem, a failed tree insertion
      returns its code, and a failed list insertion returns the list's Err
      after taking the content out of the tree again (handing it to
      onDelete); otherwise the new entry goes to the head
      and a full cache evicts. A key the tree already holds is handed to
      onUpdate (`upd` is its code) and adds no entry. The result is the
      return code, the cache and the content handed to onDelete, if any. */
  function Add<T>(c: Lru<T>, x: T, resident: bool, mem: Memory, upd: Rc, cmp: (T, T) -> Cmp): (r: (Rc, Lru<T>, Option<T>))
    ensures r.1.max == c.max
    ensures r.0 == Ok || r.1.list == c.list
  {
    if !mem.node then (NoMem, c, None)
    else
      var ins := TreeHead.TreeInsert(c.tree, x, cmp, mem.treeNode, upd);
      if ins.0 != Ok then (ins.0, c, None)
      else if ins.2.Some? then (Ok, c.(tree := ins.1), None)
      else if !mem.listNode then
        var d := TreeHead.TreeDelete(ins.1, x, cmp);
        (Err, c.(tree := d.0), d.1)
      else
        var e := Evict(c.(tree := ins.1, list := [Entry(x, resident)] + c.list), cmp);
        (Ok, e.0, e.1)
  }

  /** add2lru as written: a key the tree already holds is still linked into
      the list, although lruUpdate has freed its node when onUpdate
      succeeded (src/tsalgo/lru.c:47, 220-229). */
  function AddAsWritten<T>(c: Lru<T>, x: T, resident: bool, mem: Memory, upd: Rc, cmp: (T, T) -> Cmp): (r: (Rc, Lru<T>, Option<T>))
    ensures r.1.max == c.max
  {
    if !mem.node then (NoMem, c, None)
    else
      var ins := TreeHead.TreeInsert(c.tree, x, cmp, mem.treeNode, upd);
      if ins.0 != Ok then (ins.0, c, None)
      else if !mem.listNode then
        var d := TreeHead.TreeDelete(ins.1, x, cmp);
        (Err, c.(tree := d.0), d.1)
      else
        var e := Evict(c.(tree := ins.1, list := [Entry(x, resident)] + c.list), cmp);
        (Ok, e.0, e.1)
  }

  /** As written, adding a key the cache holds to an unbounded cache links
      a second entry for it into the list while the tree keeps one node:
      the tree count no longer matches the list length. */
  lemma AddAsWrittenDuplicates<T(!new)>(c: Lru<T>, x: T, resident: bool, cmp: (T, T) -> Cmp)
    requires Comparator(cmp) && Inv(c, cmp) && c.max == 0 && Lookup(c.list, x, cmp).Some?
    ensures var r := AddAsWritten(c, x, resident, Memory(true, true, true), Ok, cmp);
            && r.0 == Ok && r.1.tree == c.tree
            && r.1.list == [Entry(x, resident)] + c.list
            && r.1.tree.count as int != |r.1.list|
  {
    FindInList(c, x, cmp);
    TreeHead.TreeInsertKept(c.tree, x, cmp, true, Ok);
    InvCount(c, cmp);
  }

  /** Adding a key the cache holds changes neither the list nor the tree. */
  lemma AddPresent<T(!new)>(c: Lru<T>, x: T, resident: bool, mem: Memory, upd: Rc, cmp: (T, T) -> Cmp)
    requires Comparator(cmp) && Inv(c, cmp) && Lookup(c.list, x, cmp).Some?
    ensures var r := Add(c, x, resident, mem, upd, cmp);
            && r.1 == c && r.2.None?
            && r.0 == (if !mem.node then NoMem else if upd == Err then Err else Ok)
  {
    FindInList(c, x, cmp);
    TreeHead.TreeInsertKept(c.tree, x, cmp, mem.treeNode, upd);
  }

  /** Adding a key the cache does not hold fails only for want of memory,
      and then leaves the list and the contents of the tree as they were. */
  lemma AddFails<T(!new)>(c: Lru<T>, x: T, resident: bool, mem: Memory, upd: Rc, cmp: (T, T) -> Cmp)
    requires Comparator(cmp) && Inv(c, cmp) && c.tree.count < 0xFFFF_FFFF && Lookup(c.list, x, cmp).None?
    requires !(mem.node && mem.treeNode && mem.listNode)
    ensures var r := Add(c, x, resident, mem, upd, cmp);
            && Inv(r.1, cmp) && r.1.list == c.list
            && (!mem.node ==> r == (NoMem, c, None))
            && (mem.node && !mem.treeNode ==> r == (Err, c, None))
            && (mem.node && mem.treeNode ==>
                  r.0 == Err && r.2 == Some(x) && InOrder(r.1.tree.root) == InOrder(c.tree.root))
  {
    FindInList(c, x, cmp);
    TreeHead.TreeInsertKept(c.tree, x, cmp, mem.treeNode, upd);
    if mem.node && mem.treeNode {
      TreeHead.TreeInsertNew(c.tree, x, cmp, upd);
      TreeHead.TreeInsertValid(c.tree, x, cmp, true, upd);
      var h := TreeHead.TreeInsert(c.tree, x, cmp, true, upd).1;
      TreeHead.TreeDeleteValid(h, x, cmp);
      TreeHead.TreeDeleteRemoves(h, x, cmp);
      if c.tree.root.Node? {
        FindMissing(c.tree.root, x, cmp);
      }
      PlaceDrop(InOrder(c.tree.root), x, cmp);
    }
  }

  /** Adding a key the cache does not hold puts a new entry at the head,
      indexes it, and then evicts as Evicted says. */
  lemma AddSucceeds<T(!new)>(c: Lru<T>, x: T, resident: bool, upd: Rc, cmp: (T, T) -> Cmp)
    requires Comparator(cmp) && Inv(c, cmp) && c.tree.count < 0xFFFF_FFFF && Lookup(c.list, x, cmp).None?
    ensures var r := Add(c, x, resident, Memory(true, true, true), upd, cmp);
            var s := [Entry(x, resident)] + c.list;
            var e := Evicted(s, c.max as int);
            && r.0 == Ok && Inv(r.1, cmp) && r.1.list == e.0
            && r.2 == if e.1.Some? then Some(s[e.1.value].cont) else None
  {
    FindInList(c, x, cmp);
    TreeHead.TreeInsertNew(c.tree, x, cmp, upd);
    TreeHead.TreeInsertValid(c.tree, x, cmp, true, upd);
    var h := TreeHead.TreeInsert(c.tree, x, cmp, true, upd).1;
    var s := [Entry(x, resident)] + c.list;
    ContsAppend([Entry(x, resident)], c.list);
    assert Conts([Entry(x, resident)]) == [x];
    EvictSpec(c.(tree := h, list := s), cmp);
  }

  // ------------------------------------------------------------ residence

  /** ts_algo_lru_revokeResidence (src/tsalgo/lru.c:255-264): clear the
      resident flag of the entry the tree finds, if any. */
  function Revoke<T>(c: Lru<T>, x: T, cmp: (T, T) -> Cmp): (r: Lru<T>)
    ensures r.tree == c.tree && r.max == c.max && |r.list| == |c.list|
  {
    match TreeHead.TreeFind(c.tree, x, cmp)
    case None => c
    case Some(e) =>
      match Lookup(c.list, e, cmp)
      case None => c
      case Some(k) => c.(list := c.list[k := Entry(c.list[k].cont, false)])
  }

  /** Revoking changes only the flag of the entry holding the key, and
      nothing when the cache does not hold it. */
  lemma RevokeSpec<T(!new)>(c: Lru<T>, x: T, cmp: (T, T) -> Cmp)
    requires Comparator(cmp) && Inv(c, cmp)
    ensures var r := Revoke(c, x, cmp);
            && Inv(r, cmp)
            && match Lookup(c.list, x, cmp)
               case None => r == c
               case Some(k) => r.list == c.list[k := c.list[k].(resident := false)]
  {
    FindInList(c, x, cmp);
    if Lookup(c.list, x, cmp).Some? {
      LookupAgain(c.list, x, cmp);
      var k := Lookup(c.list, x, cmp).value;
      assert Conts(Revoke(c, x, cmp).list) == Conts(c.list);
    }
  }

  // ------------------------------------------------------------ destroy

  /** ts_algo_lru_destroy (src/tsalgo/lru.c:130-133): the contents handed
      to onDestroy as the tree is destroyed; the list only loses its nodes. */
  function Destroy<T>(c: Lru<T>): (r: seq<T>)
    ensures |r| == |InOrder(c.tree.root)|
  {
    TreeHead.PostOrderPermutes(c.tree.root);
    assert |PostOrder(c.tree.root)| == |multiset(PostOrder(c.tree.root))|;
    TreeHead.Destroy(c.tree).0
  }

  /** Destroying hands every cached content to onDestroy exactly once. */
  lemma DestroyEach<T(!new)>(c: Lru<T>, cmp: (T, T) -> Cmp)
    requires Inv(c, cmp)
    ensures multiset(Destroy(c)) == multiset(Conts(c.list))
  {
    TreeHead.DestroyEach(c.tree, cmp);
  }
}
