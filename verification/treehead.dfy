/** The public tree interface of src/tsalgo/tree.c: a head that holds the
    root and the node count, and the operations on it (init, insert,
    delete, find, destroy, toList, search, filter). The head's `dummy`
    node only serves as the root's parent for the pointer rewiring and is
    not modelled. */
module TreeHead {
  import opened Base
  import opened Order
  import opened AvlTree
  import opened TreeOrder

  /** The range of the head's uint32_t node count. */
  newtype U32 = n: int | 0 <= n < 0x1_0000_0000

  /** The fields of ts_algo_tree_t the operations depend on. */
  datatype Head<T> = Head(root: Tree<T>, count: U32)

  /** `count++` and `count--` on a uint32_t, wrapping around. */
  function Step32(n: U32, up: bool): U32 {
    if up then (if n < 0xFFFF_FFFF then n + 1 else 0)
    else (if n > 0 then n - 1 else 0xFFFF_FFFF)
  }

  /** What the head promises between calls: an AVL tree, a search tree,
      and a count that is the number of contents. */
  ghost predicate Valid<T(!new)>(h: Head<T>, cmp: (T, T) -> Cmp) {
    Avl(h.root) && Bst(h.root, cmp) && h.count as int == |InOrder(h.root)|
  }

  // ------------------------------------------------------------ init

  /** ts_algo_tree_init (src/tsalgo/tree.c:688-710): an empty tree; the
      result is Err when the dummy node cannot be allocated. */
  function Init<T>(alloc: bool): (r: (Rc, Head<T>))
    ensures r.0 == Ok <==> alloc
    ensures r.1.root.Nil? && r.1.count == 0
  {
    (if alloc then Ok else Err, Head(Nil, 0))
  }

  /** A fresh head is valid for every comparison and holds nothing. */
  lemma InitValid<T(!new)>(alloc: bool, cmp: (T, T) -> Cmp)
    ensures Valid(Init<T>(alloc).1, cmp) && InOrder(Init<T>(alloc).1.root) == []
  {
  }

  // ------------------------------------------------------------ find

  /** find on the head (src/tsalgo/tree.c:774-779). */
  function TreeFind<T>(h: Head<T>, x: T, cmp: (T, T) -> Cmp): (r: Option<T>)
    ensures h.root.Nil? ==> r.None?
  {
    if h.root.Nil? then None else Find(h.root, x, cmp)
  }

  /** In a search tree, find returns the one content comparing Equal to
      the key; FindMissing in TreeOrder covers the case without one. */
  lemma FindUnique<T(!new)>(t: Tree<T>, x: T, e: T, cmp: (T, T) -> Cmp)
    requires Comparator(cmp) && Bst(t, cmp)
    requires e in InOrder(t) && cmp(x, e) == Equal
    ensures Find(t, x, cmp) == Some(e)
  {
    FindMissing(t, x, cmp);
    FindFound(t, x, cmp);
    var f := Find(t, x, cmp).value;
    var s := InOrder(t);
    var i :| 0 <= i < |s| && s[i] == e;
    var j :| 0 <= j < |s| && s[j] == f;
    ComparatorEqual(cmp, x, e);
    ComparatorEqual(cmp, x, f);
    if i < j {
      EqualTrans(cmp, e, f, x);
      assert false;
    } else if j < i {
      EqualTrans(cmp, f, e, x);
      assert false;
    }
  }

  /** Find on the head answers with the content comparing Equal to the key
      when the tree holds one, and with nothing otherwise. */
  lemma TreeFindSpec<T(!new)>(h: Head<T>, x: T, cmp: (T, T) -> Cmp)
    requires Comparator(cmp) && Valid(h, cmp)
    ensures TreeFind(h, x, cmp).None? <==> Absent(x, InOrder(h.root), cmp)
    ensures forall e :: e in InOrder(h.root) && cmp(x, e) == Equal ==> TreeFind(h, x, cmp) == Some(e)
  {
    FindMissing(h.root, x, cmp);
    forall e | e in InOrder(h.root) && cmp(x, e) == Equal ensures TreeFind(h, x, cmp) == Some(e) {
      FindUnique(h.root, x, e, cmp);
    }
  }

  // ------------------------------------------------------------ insert

  /** ts_algo_tree_insert (src/tsalgo/tree.c:731-753). The result is the
      return code, the new head and the existing content handed to
      onUpdate, whose return code is `upd`. An empty tree gets a single
      node; a failed allocation is Err; a duplicate leaves the tree alone
      and is Err only when onUpdate says Err (any other code of onUpdate
      is turned into Ok); a new content counts one more node. */
  function TreeInsert<T>(h: Head<T>, x: T, cmp: (T, T) -> Cmp, alloc: bool, upd: Rc): (r: (Rc, Head<T>, Option<T>))
    ensures r.0 == Ok || r.0 == Err
    ensures r.2.Some? ==> r.1 == h && (r.0 == Err <==> upd == Err)
    ensures r.1 != h ==> r.0 == Ok && r.2.None? && r.1.count == if h.root.Nil? then 1 else Step32(h.count, true)
  {
    if h.root.Nil? then
      if alloc then (Ok, Head(Node(Nil, x, 0, Nil), 1), None) else (Err, h, None)
    else
      var s := Ins(h.root, x, cmp, alloc);
      InsUnchanged(h.root, x, cmp, alloc);
      match s.out
      case Added => (Ok, Head(s.tree, Step32(h.count, true)), None)
      case NoNode => (Err, h, None)
      case Duplicate(e) => (if upd == Err then Err else Ok, h, Some(e))
  }

  /** Insertion keeps the head valid. */
  lemma TreeInsertValid<T(!new)>(h: Head<T>, x: T, cmp: (T, T) -> Cmp, alloc: bool, upd: Rc)
    requires Comparator(cmp) && Valid(h, cmp) && h.count < 0xFFFF_FFFF
    ensures Valid(TreeInsert(h, x, cmp, alloc, upd).1, cmp)
  {
    if TreeFind(h, x, cmp).None? && alloc {
      InsNew(h.root, x, cmp);
      assert TreeInsert(h, x, cmp, alloc, upd).1 == Head(Ins(h.root, x, cmp, true).tree, h.count + 1);
    } else {
      TreeInsertKept(h, x, cmp, alloc, upd);
    }
  }

  /** A key find already answers for goes to onUpdate together with the
      content find returns, and the tree stays as it is; so does a key whose
      node cannot be allocated, with Err. */
  lemma TreeInsertKept<T>(h: Head<T>, x: T, cmp: (T, T) -> Cmp, alloc: bool, upd: Rc)
    ensures var r := TreeInsert(h, x, cmp, alloc, upd);
            && (TreeFind(h, x, cmp).Some? ==> r == (if upd == Err then Err else Ok, h, TreeFind(h, x, cmp)))
            && (TreeFind(h, x, cmp).None? && !alloc ==> r == (Err, h, None))
  {
    InsFollowsFind(h.root, x, cmp, alloc);
    InsUnchanged(h.root, x, cmp, alloc);
  }

  /** A new key fails only for want of memory; otherwise it takes its
      sorted place among the contents, becomes findable, and counts one
      more. */
  lemma TreeInsertNew<T(!new)>(h: Head<T>, x: T, cmp: (T, T) -> Cmp, upd: Rc)
    requires Comparator(cmp) && Valid(h, cmp) && h.count < 0xFFFF_FFFF && TreeFind(h, x, cmp).None?
    ensures var r := TreeInsert(h, x, cmp, true, upd);
            && r.0 == Ok && r.2.None? && r.1.count as int == h.count as int + 1
            && InOrder(r.1.root) == Place(InOrder(h.root), x, cmp)
            && TreeFind(r.1, x, cmp) == Some(x)
  {
    InsNew(h.root, x, cmp);
    var s := Ins(h.root, x, cmp, true);
    assert TreeInsert(h, x, cmp, true, upd) == (Ok, Head(s.tree, h.count + 1), None);
    assert s.tree.Node?;
  }

  /** Inserting a key the tree does not hold adds a node that find then
      returns, in its sorted place, keeping both invariants. */
  lemma InsNew<T(!new)>(t: Tree<T>, x: T, cmp: (T, T) -> Cmp)
    requires Comparator(cmp) && Avl(t) && Bst(t, cmp) && Find(t, x, cmp).None?
    ensures var s := Ins(t, x, cmp, true);
            && s.out == Added && Avl(s.tree) && Bst(s.tree, cmp)
            && InOrder(s.tree) == Place(InOrder(t), x, cmp)
            && Find(s.tree, x, cmp) == Some(x)
  {
    var s := Ins(t, x, cmp, true);
    InsFollowsFind(t, x, cmp, true);
    InsBalances(t, x, cmp, true);
    InsPlaces(t, x, cmp, true);
    FindMissing(t, x, cmp);
    PlaceIncreasing(InOrder(t), x, cmp);
    ComparatorEqual(cmp, x, x);
    assert x in multiset(InOrder(s.tree));
    FindUnique(s.tree, x, x, cmp);
  }

  // ------------------------------------------------------------ delete

  /** ts_algo_tree_delete (src/tsalgo/tree.c:759-768): the new head and the
      content handed to onDelete, if any. Only a removal lowers the count. */
  function TreeDelete<T>(h: Head<T>, x: T, cmp: (T, T) -> Cmp): (r: (Head<T>, Option<T>))
    ensures r.1.None? ==> r.0.count == h.count
    ensures r.1.Some? ==> r.0.count == Step32(h.count, false)
  {
    if h.root.Nil? then (h, None)
    else
      var s := Del(h.root, x, cmp);
      (Head(s.tree, if s.removed.Some? then Step32(h.count, false) else h.count), s.removed)
  }

  /** Dropping the content comparing Equal to `x` from a strictly
      increasing sequence removes exactly that content. */
  lemma {:induction false} DropRemoves<T(!new)>(s: seq<T>, x: T, e: T, cmp: (T, T) -> Cmp)
    requires Comparator(cmp) && Increasing(s, cmp)
    requires e in s && cmp(x, e) == Equal
    ensures multiset(Drop(s, x, cmp)) + multiset{e} == multiset(s)
    decreases |s|
  {
    assert s == [s[0]] + s[1..];
    if cmp(x, s[0]) == Equal {
      if e != s[0] {
        var j :| 0 <= j < |s| && s[j] == e;
        assert j > 0;
        ComparatorEqual(cmp, x, s[0]);
        ComparatorEqual(cmp, x, e);
        EqualTrans(cmp, s[0], e, x);
        assert false;
      }
    } else {
      IncreasingTail(s, cmp);
      DropRemoves(s[1..], x, e, cmp);
    }
  }

  /** Deletion keeps the head valid, hands to onDelete exactly what find
      would have returned, and leaves nothing find could return. */
  lemma TreeDeleteValid<T(!new)>(h: Head<T>, x: T, cmp: (T, T) -> Cmp)
    requires Comparator(cmp) && Valid(h, cmp)
    ensures var r := TreeDelete(h, x, cmp);
            && Valid(r.0, cmp)
            && r.1 == TreeFind(h, x, cmp)
            && TreeFind(r.0, x, cmp).None?
  {
    if h.root.Node? {
      DelGone(h.root, x, cmp);
      DelCounts(h.root, x, cmp);
    }
  }

  /** A missing key changes nothing; a present one leaves the tree with
      that content removed, everything else in its order, and a count one
      lower. */
  lemma TreeDeleteRemoves<T(!new)>(h: Head<T>, x: T, cmp: (T, T) -> Cmp)
    requires Comparator(cmp) && Valid(h, cmp)
    ensures var r := TreeDelete(h, x, cmp);
            && InOrder(r.0.root) == Drop(InOrder(h.root), x, cmp)
            && (r.1.None? ==> r.0 == h)
            && (r.1.Some? ==> r.0.count as int == h.count as int - 1
                              && multiset(InOrder(r.0.root)) + multiset{r.1.value} == multiset(InOrder(h.root)))
  {
    if h.root.Node? {
      DelGone(h.root, x, cmp);
      DelCounts(h.root, x, cmp);
    }
  }

  /** Deletion keeps both invariants, follows find, and leaves nothing
      comparing Equal to the key. */
  lemma DelGone<T(!new)>(t: Tree<T>, x: T, cmp: (T, T) -> Cmp)
    requires Comparator(cmp) && Avl(t) && Bst(t, cmp)
    ensures var s := Del(t, x, cmp);
            && Avl(s.tree) && Bst(s.tree, cmp) && s.removed == Find(t, x, cmp)
            && InOrder(s.tree) == Drop(InOrder(t), x, cmp)
            && Find(s.tree, x, cmp).None?
  {
    var s := Del(t, x, cmp);
    DelFollowsFind(t, x, cmp);
    DelBalances(t, x, cmp);
    DelDrops(t, x, cmp);
    DropIncreasing(InOrder(t), x, cmp);
    FindMissing(s.tree, x, cmp);
  }

  /** Deletion removes one content, the one find returns, or nothing. */
  lemma DelCounts<T(!new)>(t: Tree<T>, x: T, cmp: (T, T) -> Cmp)
    requires Comparator(cmp) && Avl(t) && Bst(t, cmp)
    ensures var s := Del(t, x, cmp);
            && (s.removed.None? ==> s.tree == t)
            && (s.removed.Some? ==> |InOrder(s.tree)| + 1 == |InOrder(t)|
                                    && multiset(InOrder(s.tree)) + multiset{s.removed.value} == multiset(InOrder(t)))
  {
    var s := Del(t, x, cmp);
    DelFollowsFind(t, x, cmp);
    if s.removed.None? {
      DelBalances(t, x, cmp);
    } else {
      RemovedOne(t, x, cmp);
    }
  }

  /** The counting half of DelCounts when a content is found. */
  lemma RemovedOne<T(!new)>(t: Tree<T>, x: T, cmp: (T, T) -> Cmp)
    requires Comparator(cmp) && Bst(t, cmp) && Find(t, x, cmp).Some?
    ensures var s := Del(t, x, cmp);
            multiset(InOrder(s.tree)) + multiset{Find(t, x, cmp).value} == multiset(InOrder(t))
            && |InOrder(s.tree)| + 1 == |InOrder(t)|
  {
    var e := Find(t, x, cmp).value;
    var a := InOrder(Del(t, x, cmp).tree);
    var b := InOrder(t);
    DelDrops(t, x, cmp);
    FindFound(t, x, cmp);
    DropRemoves(b, x, e, cmp);
    assert multiset(a) + multiset{e} == multiset(b);
    assert |multiset(a) + multiset{e}| == |multiset(b)|;
  }

  // ------------------------------------------------------------ size

  /** A tree has at least as many contents as levels. */
  lemma {:induction false} HeightBelowSize<T>(t: Tree<T>)
    ensures Height(t) <= |InOrder(t)|
  {
    if t.Node? {
      HeightBelowSize(t.left);
      HeightBelowSize(t.right);
    }
  }

  lemma {:induction false} Pow2Monotonic(a: nat, b: nat)
    requires a <= b
    ensures Pow2(a) <= Pow2(b)
    decreases b
  {
    if a < b {
      Pow2Monotonic(a, b - 1);
    }
  }

  /** An AVL tree of height h holds at least 2^((h+1)/2) - 1 contents: the
      shorter subtree is at most one level below the taller one. */
  lemma {:induction false} AvlSize<T>(t: Tree<T>)
    requires Avl(t)
    ensures Pow2((Height(t) + 1) / 2) <= |InOrder(t)| + 1
  {
    if t.Node? {
      AvlSize(t.left);
      AvlSize(t.right);
      SizeStep(Height(t.left), Height(t.right), |InOrder(t.left)|, |InOrder(t.right)|);
    }
  }

  /** The arithmetic of one AVL node: subtrees at most one level apart. */
  lemma SizeStep(hl: nat, hr: nat, nl: nat, nr: nat)
    requires hl <= hr + 1 && hr <= hl + 1
    requires Pow2((hl + 1) / 2) <= nl + 1 && Pow2((hr + 1) / 2) <= nr + 1
    ensures Pow2((Max(hl, hr) + 2) / 2) <= nl + nr + 2
  {
    var m := Max(hl, hr);
    var o := if hl > hr then hr else hl;
    Pow2Monotonic(m / 2, (o + 1) / 2);
    Pow2Monotonic(m / 2, (m + 1) / 2);
    assert Pow2(m / 2 + 1) == 2 * Pow2(m / 2);
  }

  /** The height bound the randomised tests check after deletions
      (test/treerandom.c:257-258): a non-empty AVL tree of at most 2^c
      contents is at most 2c + 1 levels tall. */
  lemma HeightLogarithmic<T>(t: Tree<T>, c: nat)
    requires Avl(t) && 1 <= |InOrder(t)| <= Pow2(c)
    ensures Height(t) <= 2 * c + 1
  {
    AvlSize(t);
    HeightBelowSize(t);
    if Height(t) > 2 * c + 1 {
      assert false;
    }
  }

  // ------------------------------------------------------------ traversals

  /** toList (src/tsalgo/tree.c:568-583): append the left subtree, the node
      and the right subtree to the list built so far. `alloc(i)` says
      whether the node allocation of the append that finds `i` contents in
      the list succeeds; the first one that fails ends the walk with NO_MEM
      (None). */
  function Flatten<T>(t: Tree<T>, acc: seq<T>, alloc: nat -> bool): Option<seq<T>> {
    match t
    case Nil => Some(acc)
    case Node(l, x, _, r) =>
      match Flatten(l, acc, alloc)
      case None => None
      case Some(a) => if alloc(|a|) then Flatten(r, a + [x], alloc) else None
  }

  /** Flattening appends the in-order sequence, and fails exactly when one
      of the appends it makes cannot allocate its node. */
  lemma {:induction false} FlattenInOrder<T>(t: Tree<T>, acc: seq<T>, alloc: nat -> bool)
    ensures Flatten(t, acc, alloc).Some? <==> forall i :: |acc| <= i < |acc| + |InOrder(t)| ==> alloc(i)
    ensures Flatten(t, acc, alloc).Some? ==> Flatten(t, acc, alloc).value == acc + InOrder(t)
  {
    match t
    case Nil =>
    case Node(l, x, _, r) =>
      FlattenInOrder(l, acc, alloc);
      var n := |acc| + |InOrder(l)|;
      if Flatten(l, acc, alloc).Some? {
        var a := Flatten(l, acc, alloc).value;
        assert |a| == n;
        FlattenInOrder(r, a + [x], alloc);
        assert acc + InOrder(t) == a + [x] + InOrder(r);
      }
  }

  /** ts_algo_tree_toList (src/tsalgo/tree.c:830-844): NULL for an empty
      tree, when the list itself cannot be allocated (`listOk` false) or
      when an append fails; otherwise a new list of every content. */
  function ToList<T>(h: Head<T>, listOk: bool, alloc: nat -> bool): (r: Option<seq<T>>)
    ensures r.None? <==> h.root.Nil? || !listOk || exists i :: 0 <= i < |InOrder(h.root)| && !alloc(i)
    ensures r.Some? ==> r.value == InOrder(h.root)
  {
    if h.root.Nil? || !listOk then None
    else
      FlattenInOrder(h.root, [], alloc);
      Flatten(h.root, [], alloc)
  }

  /** The list of a valid tree is strictly increasing and as long as the
      count says, and it is built whenever every allocation succeeds. */
  lemma ToListSorted<T(!new)>(h: Head<T>, cmp: (T, T) -> Cmp, listOk: bool, alloc: nat -> bool)
    requires Valid(h, cmp) && h.count > 0
    ensures listOk && (forall i :: alloc(i)) ==> ToList(h, listOk, alloc).Some?
    ensures ToList(h, listOk, alloc).Some? ==> Increasing(ToList(h, listOk, alloc).value, cmp)
                                               && |ToList(h, listOk, alloc).value| == h.count as int
  {
  }

  /** The first element of `s` satisfying `p`: the reference for search. */
  function FirstMatch<T>(s: seq<T>, p: T -> bool): (r: Option<T>)
    ensures r.Some? ==> r.value in s && p(r.value)
    ensures r.None? <==> forall i :: 0 <= i < |s| ==> !p(s[i])
  {
    if |s| == 0 then None
    else if p(s[0]) then Some(s[0])
    else FirstMatch(s[1..], p)
  }

  lemma {:induction false} FirstMatchAppend<T>(a: seq<T>, b: seq<T>, p: T -> bool)
    ensures FirstMatch(a + b, p) == if FirstMatch(a, p).Some? then FirstMatch(a, p) else FirstMatch(b, p)
    decreases |a|
  {
    if |a| > 0 {
      assert (a + b)[1..] == a[1..] + b;
      FirstMatchAppend(a[1..], b, p);
    } else {
      assert a + b == b;
    }
  }

  /** treesearch (src/tsalgo/tree.c:592-607): the node first, then the
      left subtree, then the right one. */
  function Seek<T>(t: Tree<T>, p: T -> bool): Option<T> {
    match t
    case Nil => None
    case Node(l, x, _, r) =>
      if p(x) then Some(x)
      else
        var a := Seek(l, p);
        if a.Some? then a else Seek(r, p)
  }

  /** Search finds the first match in preorder. */
  lemma {:induction false} SeekFirst<T>(t: Tree<T>, p: T -> bool)
    ensures Seek(t, p) == FirstMatch(PreOrder(t), p)
  {
    match t
    case Nil =>
    case Node(l, x, _, r) =>
      SeekFirst(l, p);
      SeekFirst(r, p);
      FirstMatchAppend([x] + PreOrder(l), PreOrder(r), p);
      FirstMatchAppend([x], PreOrder(l), p);
  }

  /** ts_algo_tree_search (src/tsalgo/tree.c:904-910); the pattern is
      folded into `p`. */
  function Search<T>(h: Head<T>, p: T -> bool): (r: Option<T>)
    ensures r == FirstMatch(PreOrder(h.root), p)
  {
    SeekFirst(h.root, p);
    if h.root.Nil? then None else Seek(h.root, p)
  }

  /** The elements of `s` satisfying `p`, in their order: the reference
      for filter. */
  function Keep<T(!new)>(s: seq<T>, p: T -> bool): (r: seq<T>)
    ensures |r| <= |s|
  {
    if |s| == 0 then []
    else
      assert s == [s[0]] + s[1..];
      (if p(s[0]) then [s[0]] else []) + Keep(s[1..], p)
  }

  /** Filtering keeps exactly the matching elements. */
  lemma {:induction false} KeepMatches<T(!new)>(s: seq<T>, p: T -> bool)
    ensures forall e :: e in Keep(s, p) <==> e in s && p(e)
    decreases |s|
  {
    if |s| > 0 {
      assert s == [s[0]] + s[1..];
      KeepMatches(s[1..], p);
    }
  }

  lemma {:induction false} KeepAppend<T(!new)>(a: seq<T>, b: seq<T>, p: T -> bool)
    ensures Keep(a + b, p) == Keep(a, p) + Keep(b, p)
    decreases |a|
  {
    if |a| > 0 {
      assert (a + b)[1..] == a[1..] + b;
      KeepAppend(a[1..], b, p);
    } else {
      assert a + b == b;
    }
  }

  /** treefilter (src/tsalgo/tree.c:615-637): append the node when it
      matches, then filter the left subtree, then the right one. */
  function Collect<T>(t: Tree<T>, p: T -> bool, acc: seq<T>): seq<T> {
    match t
    case Nil => acc
    case Node(l, x, _, r) => Collect(r, p, Collect(l, p, acc + (if p(x) then [x] else [])))
  }

  /** Filtering appends the matches in preorder. */
  lemma {:induction false} CollectKeeps<T(!new)>(t: Tree<T>, p: T -> bool, acc: seq<T>)
    ensures Collect(t, p, acc) == acc + Keep(PreOrder(t), p)
  {
    match t
    case Nil =>
    case Node(l, x, _, r) =>
      var kx := Keep([x], p);
      var kl := Keep(PreOrder(l), p);
      var kr := Keep(PreOrder(r), p);
      assert kx == (if p(x) then [x] else []) by {
        assert [x][1..] == [];
      }
      var a := acc + kx;
      var b := Collect(l, p, a);
      CollectKeeps(l, p, a);
      CollectKeeps(r, p, b);
      assert Collect(t, p, acc) == b + kr;
      assert PreOrder(t) == [x] + PreOrder(l) + PreOrder(r);
      KeepAppend([x] + PreOrder(l), PreOrder(r), p);
      KeepAppend([x], PreOrder(l), p);
      assert Keep(PreOrder(t), p) == kx + kl + kr;
      assert b + kr == acc + (kx + kl + kr);
  }

  /** ts_algo_tree_filter (src/tsalgo/tree.c:918-928): an empty tree leaves
      the list alone, a missing list is Invalid, and otherwise every
      matching content is appended to the list. */
  function Filter<T(!new)>(h: Head<T>, list: Option<seq<T>>, p: T -> bool): (r: (Rc, Option<seq<T>>))
    ensures h.root.Nil? ==> r == (Ok, list)
    ensures h.root.Node? && list.None? ==> r.0 == Invalid
    ensures h.root.Node? && list.Some? ==> r == (Ok, Some(list.value + Keep(PreOrder(h.root), p)))
  {
    if h.root.Nil? then (Ok, list)
    else if list.None? then (Invalid, list)
    else
      CollectKeeps(h.root, p, list.value);
      (Ok, Some(Collect(h.root, p, list.value)))
  }

  /** The preorder holds the same contents as the in-order sequence, so
      search and filter look at every content once. */
  lemma {:induction false} PreOrderPermutes<T>(t: Tree<T>)
    ensures multiset(PreOrder(t)) == multiset(InOrder(t))
  {
    if t.Node? {
      PreOrderPermutes(t.left);
      PreOrderPermutes(t.right);
    }
  }

  // ------------------------------------------------------------ destroy

  /** ts_algo_tree_destroy (src/tsalgo/tree.c:716-725) with destroytree
      (42-52): the contents handed to onDestroy, subtrees before their
      node, and the emptied head. The count is left as it was. */
  function Destroy<T>(h: Head<T>): (r: (seq<T>, Head<T>))
    ensures r.1.root.Nil? && r.1.count == h.count
  {
    (PostOrder(h.root), Head(Nil, h.count))
  }

  /** Destroying hands every content to onDestroy exactly once. */
  lemma {:induction false} DestroyEach<T(!new)>(h: Head<T>, cmp: (T, T) -> Cmp)
    requires Valid(h, cmp)
    ensures multiset(Destroy(h).0) == multiset(InOrder(h.root))
    ensures |Destroy(h).0| == h.count as int
  {
    PostOrderPermutes(h.root);
    assert |Destroy(h).0| == |multiset(PostOrder(h.root))|;
  }

  lemma {:induction false} PostOrderPermutes<T>(t: Tree<T>)
    ensures multiset(PostOrder(t)) == multiset(InOrder(t))
  {
    if t.Node? {
      PostOrderPermutes(t.left);
      PostOrderPermutes(t.right);
    }
  }
}
