/** The AVL tree of src/tsalgo/tree.c (after Wirth): nodes carry a balance
    factor, insertion and deletion report through a flag whether the
    subtree they worked on grew or shrank, and the caller rebalances with
    single or double rotations. The C code rewires a parent pointer
    (`mom`); here every operation returns the new subtree instead. */
module AvlTree {
  import opened Base
  import opened Order

  /** A node holds a content and the balance factor `bal`, which is meant to
      be height(right) - height(left). */
  datatype Tree<T> = Nil | Node(left: Tree<T>, cont: T, bal: int, right: Tree<T>)

  function Max(a: nat, b: nat): nat {
    if a > b then a else b
  }

  /** treeheight (src/tsalgo/tree.c:89-96). */
  function Height<T>(t: Tree<T>): (h: nat)
    ensures h == 0 <==> t.Nil?
  {
    match t
    case Nil => 0
    case Node(l, _, _, r) => Max(Height(l), Height(r)) + 1
  }

  /** The contents from left to right: the order in which toList appends. */
  function InOrder<T>(t: Tree<T>): seq<T> {
    match t
    case Nil => []
    case Node(l, x, _, r) => InOrder(l) + [x] + InOrder(r)
  }

  /** Node before its subtrees: the order search and filter visit. */
  function PreOrder<T>(t: Tree<T>): seq<T> {
    match t
    case Nil => []
    case Node(l, x, _, r) => [x] + PreOrder(l) + PreOrder(r)
  }

  /** Subtrees before their node: the order destroytree hands contents to
      onDestroy. */
  function PostOrder<T>(t: Tree<T>): seq<T> {
    match t
    case Nil => []
    case Node(l, x, _, r) => PostOrder(l) + PostOrder(r) + [x]
  }

  /** treebalanced (src/tsalgo/tree.c:102-109): the heights of the root's
      subtrees differ by at most one. Only the root is checked. */
  predicate Balanced<T>(t: Tree<T>) {
    t.Nil? || (Height(t.left) - Height(t.right) < 2 && Height(t.right) - Height(t.left) < 2)
  }

  /** baltest (src/tsalgo/tree.c:116-126): every balance factor is the
      difference of its subtrees' heights. The range of the factor is not
      checked. */
  predicate BalTest<T>(t: Tree<T>) {
    t.Nil? || (t.bal == Height(t.right) - Height(t.left) && BalTest(t.left) && BalTest(t.right))
  }

  /** The AVL invariant: every balance factor is right and lies in -1..1. */
  ghost predicate Avl<T>(t: Tree<T>) {
    match t
    case Nil => true
    case Node(l, _, b, r) => Avl(l) && Avl(r) && b == Height(r) - Height(l) && -1 <= b <= 1
  }

  /** The AVL invariant is exactly what baltest checks together with
      treebalanced at every node. */
  lemma {:induction false} AvlChecks<T>(t: Tree<T>)
    ensures Avl(t) <==> BalTest(t) && EveryBalanced(t)
  {
    if t.Node? {
      AvlChecks(t.left);
      AvlChecks(t.right);
    }
  }

  ghost predicate EveryBalanced<T>(t: Tree<T>) {
    t.Nil? || (Balanced(t) && EveryBalanced(t.left) && EveryBalanced(t.right))
  }

  // ------------------------------------------------------------ rotations

  /** rotateLR (src/tsalgo/tree.c:183-230): the right child `m` of the left
      child becomes the root, with the left child and the node as its
      subtrees. Nothing happens when that grandchild is missing. The
      insert and delete variants compute the same balance factors. */
  function RotateLR<T>(n: Tree<T>, onInsert: bool): Tree<T> {
    if n.Nil? || n.left.Nil? || n.left.right.Nil? then n
    else
      var l, m := n.left, n.left.right;
      var nb := if onInsert then (if m.bal == 1 then 0 else if m.bal == -1 then 1 else 0)
                else (if m.bal == -1 then 1 else 0);
      var lb := if onInsert then (if m.bal == 1 then -1 else 0)
                else (if m.bal == 1 then -1 else 0);
      Node(Node(l.left, l.cont, lb, m.left), m.cont, 0, Node(m.right, n.cont, nb, n.right))
  }

  /** rotateRight (src/tsalgo/tree.c:236-276): a left child leaning right
      calls for the double rotation; otherwise the left child becomes the
      root. The flag is true when the rotation clears the caller's height
      flag, which only a deletion with a balanced left child does. */
  function RotateRight<T>(n: Tree<T>, onInsert: bool): (Tree<T>, bool) {
    if n.Nil? || n.left.Nil? then (n, false)
    else if n.left.bal > 0 then (RotateLR(n, onInsert), false)
    else
      var l, b := n.left, n.left.bal;
      var lb := if onInsert then 0 else if b == 0 then 1 else 0;
      var nb := if onInsert then 0 else if b == 0 then -1 else 0;
      (Node(l.left, l.cont, lb, Node(l.right, n.cont, nb, n.right)), !onInsert && b == 0)
  }

  /** rotateRL (src/tsalgo/tree.c:282-331), the mirror of rotateLR. */
  function RotateRL<T>(n: Tree<T>, onInsert: bool): Tree<T> {
    if n.Nil? || n.right.Nil? || n.right.left.Nil? then n
    else
      var r, m := n.right, n.right.left;
      var nb := if onInsert then (if m.bal == -1 then 0 else if m.bal == 1 then -1 else 0)
                else (if m.bal == 1 then -1 else 0);
      var rb := if onInsert then (if m.bal == -1 then 1 else 0)
                else (if m.bal == -1 then 1 else 0);
      Node(Node(n.left, n.cont, nb, m.left), m.cont, 0, Node(m.right, r.cont, rb, r.right))
  }

  /** rotateLeft (src/tsalgo/tree.c:337-377), the mirror of rotateRight. */
  function RotateLeft<T>(n: Tree<T>, onInsert: bool): (Tree<T>, bool) {
    if n.Nil? || n.right.Nil? then (n, false)
    else if n.right.bal < 0 then (RotateRL(n, onInsert), false)
    else
      var r, b := n.right, n.right.bal;
      var rb := if onInsert then 0 else if b == 0 then -1 else 0;
      var nb := if onInsert then 0 else if b == 0 then 1 else 0;
      (Node(Node(n.left, n.cont, nb, r.left), r.cont, rb, r.right), !onInsert && b == 0)
  }

  /** A subtree two levels taller on the left, with AVL subtrees, becomes an
      AVL tree. Its height is the left subtree's, or one more when the left
      subtree was balanced, which happens only on deletion. */
  lemma RotateRightBalances<T>(n: Tree<T>, onInsert: bool)
    requires n.Node? && Avl(n.left) && Avl(n.right) && Height(n.left) == Height(n.right) + 2
    requires onInsert ==> n.left.bal != 0
    ensures var p := RotateRight(n, onInsert);
            && Avl(p.0) && p.1 == (!onInsert && n.left.bal == 0)
            && Height(p.0) == if p.1 then Height(n.left) + 1 else Height(n.left)
  {
    var l, c := n.left, n.right;
    var a, b := l.left, l.right;
    if l.bal > 0 {
      var u, v := b.left, b.right;
      assert Height(b) == Height(a) + 1 == Height(c) + 1;
      assert Avl(u) && Avl(v) && -1 <= b.bal <= 1 && b.bal == Height(v) - Height(u);
      var t := RotateLR(n, onInsert);
      assert t.left == Node(a, l.cont, t.left.bal, u);
      assert t.right == Node(v, n.cont, t.right.bal, c);
      assert Avl(t.left) && Avl(t.right);
    } else {
      assert Height(a) == Height(c) + 1;
      var t := RotateRight(n, onInsert).0;
      assert t.right == Node(b, n.cont, t.right.bal, c);
      assert Avl(t.right);
    }
  }

  /** The mirror of RotateRightBalances. */
  lemma RotateLeftBalances<T>(n: Tree<T>, onInsert: bool)
    requires n.Node? && Avl(n.left) && Avl(n.right) && Height(n.right) == Height(n.left) + 2
    requires onInsert ==> n.right.bal != 0
    ensures var p := RotateLeft(n, onInsert);
            && Avl(p.0) && p.1 == (!onInsert && n.right.bal == 0)
            && Height(p.0) == if p.1 then Height(n.right) + 1 else Height(n.right)
  {
    var l, r := n.left, n.right;
    var a, b := r.left, r.right;
    if r.bal < 0 {
      var u, v := a.left, a.right;
      assert Height(a) == Height(b) + 1 == Height(l) + 1;
      assert Avl(u) && Avl(v) && -1 <= a.bal <= 1 && a.bal == Height(v) - Height(u);
      var t := RotateRL(n, onInsert);
      assert t.left == Node(l, n.cont, t.left.bal, u);
      assert t.right == Node(v, r.cont, t.right.bal, b);
      assert Avl(t.left) && Avl(t.right);
    } else {
      assert Height(b) == Height(l) + 1;
      var t := RotateLeft(n, onInsert).0;
      assert t.left == Node(l, n.cont, t.left.bal, a);
      assert Avl(t.left);
    }
  }

  /** Rotations to the right keep the contents in order. */
  lemma RotateRightKeepsOrder<T>(n: Tree<T>, onInsert: bool)
    ensures InOrder(RotateRight(n, onInsert).0) == InOrder(n)
  {
    if n.Node? && n.left.Node? {
      var l := n.left;
      var a, b, c := InOrder(l.left), InOrder(l.right), InOrder(n.right);
      if l.bal > 0 && l.right.Node? {
        var m := l.right;
        var u, v := InOrder(m.left), InOrder(m.right);
        calc {
          InOrder(RotateRight(n, onInsert).0);
          (a + [l.cont] + u) + [m.cont] + (v + [n.cont] + c);
          a + [l.cont] + (u + [m.cont] + v) + [n.cont] + c;
          InOrder(n);
        }
      } else if l.bal <= 0 {
        assert InOrder(RotateRight(n, onInsert).0) == a + [l.cont] + (b + [n.cont] + c);
      }
    }
  }

  /** Rotations to the left keep the contents in order. */
  lemma RotateLeftKeepsOrder<T>(n: Tree<T>, onInsert: bool)
    ensures InOrder(RotateLeft(n, onInsert).0) == InOrder(n)
  {
    if n.Node? && n.right.Node? {
      var r := n.right;
      var a, b, c := InOrder(n.left), InOrder(r.left), InOrder(r.right);
      if r.bal < 0 && r.left.Node? {
        var m := r.left;
        var u, v := InOrder(m.left), InOrder(m.right);
        calc {
          InOrder(RotateLeft(n, onInsert).0);
          (a + [n.cont] + u) + [m.cont] + (v + [r.cont] + c);
          a + [n.cont] + ((u + [m.cont] + v) + [r.cont] + c);
          InOrder(n);
        }
      } else if r.bal >= 0 {
        assert InOrder(RotateLeft(n, onInsert).0) == (a + [n.cont] + b) + [r.cont] + c;
      }
    }
  }

  // ------------------------------------------------------------ rebalancing

  /** What insert does after its left subtree grew (src/tsalgo/tree.c:398-406):
      a node already leaning left is rotated and the growth stops there;
      otherwise the factor moves left and the growth goes on unless the node
      became balanced. The flag says whether the subtree still grew. */
  function GrewLeft<T>(n: Tree<T>): (Tree<T>, bool)
    requires n.Node?
  {
    if n.bal < 0 then (RotateRight(n, true).0, false)
    else (n.(bal := n.bal - 1), n.bal - 1 != 0)
  }

  /** The mirror of GrewLeft (src/tsalgo/tree.c:410-418). */
  function GrewRight<T>(n: Tree<T>): (Tree<T>, bool)
    requires n.Node?
  {
    if n.bal > 0 then (RotateLeft(n, true).0, false)
    else (n.(bal := n.bal + 1), n.bal + 1 != 0)
  }

  /** What delete does after its left subtree shrank (src/tsalgo/tree.c:487-495
      and 550-558): a node leaning right is rotated; a balanced node now
      leans right and the shrinking stops; a node leaning left becomes
      balanced and the shrinking goes on. The flag says whether the
      subtree still shrank. */
  function ShrunkLeft<T>(n: Tree<T>): (Tree<T>, bool)
    requires n.Node?
  {
    if n.bal > 0 then
      var p := RotateLeft(n, false);
      (p.0, !p.1)
    else if n.bal == 0 then (n.(bal := 1), false)
    else (n.(bal := 0), true)
  }

  /** The mirror of ShrunkLeft (src/tsalgo/tree.c:502-510, and del at
      src/tsalgo/tree.c:440-448). */
  function ShrunkRight<T>(n: Tree<T>): (Tree<T>, bool)
    requires n.Node?
  {
    if n.bal < 0 then
      var p := RotateRight(n, false);
      (p.0, !p.1)
    else if n.bal == 0 then (n.(bal := -1), false)
    else (n.(bal := 0), true)
  }

  /** After the left subtree grew by one level, the node is an AVL tree
      again, one level taller exactly when the flag says so; a subtree that
      still grew leans to one side. */
  lemma GrewLeftBalances<T>(n: Tree<T>)
    requires n.Node? && Avl(n.left) && Avl(n.right) && -1 <= n.bal <= 1
    requires Height(n.left) >= 1 && n.bal == Height(n.right) - (Height(n.left) - 1)
    requires Height(n.left) > 1 ==> n.left.bal != 0
    ensures var p := GrewLeft(n);
            && Avl(p.0) && p.0.Node?
            && Height(p.0) == Max(Height(n.left) - 1, Height(n.right)) + 1 + (if p.1 then 1 else 0)
            && (p.1 ==> p.0.bal != 0)
  {
    var l, r := n.left, n.right;
    if n.bal < 0 {
      RotateRightBalances(n, true);
      assert GrewLeft(n) == (RotateRight(n, true).0, false);
      assert Max(Height(l) - 1, Height(r)) == Height(l) - 1;
    } else {
      var t := Node(l, n.cont, n.bal - 1, r);
      assert GrewLeft(n) == (t, n.bal - 1 != 0);
      assert Avl(t);
      assert Height(t) == Max(Height(l), Height(r)) + 1;
    }
  }

  /** The mirror of GrewLeftBalances. */
  lemma GrewRightBalances<T>(n: Tree<T>)
    requires n.Node? && Avl(n.left) && Avl(n.right) && -1 <= n.bal <= 1
    requires Height(n.right) >= 1 && n.bal == (Height(n.right) - 1) - Height(n.left)
    requires Height(n.right) > 1 ==> n.right.bal != 0
    ensures var p := GrewRight(n);
            && Avl(p.0) && p.0.Node?
            && Height(p.0) == Max(Height(n.left), Height(n.right) - 1) + 1 + (if p.1 then 1 else 0)
            && (p.1 ==> p.0.bal != 0)
  {
    var l, r := n.left, n.right;
    if n.bal > 0 {
      RotateLeftBalances(n, true);
    } else {
      var t := Node(l, n.cont, n.bal + 1, r);
      assert GrewRight(n) == (t, n.bal + 1 != 0);
      assert Avl(t);
    }
  }

  /** After the left subtree shrank by one level, the node is an AVL tree
      again, one level lower exactly when the flag says so. */
  lemma ShrunkLeftBalances<T>(n: Tree<T>)
    requires n.Node? && Avl(n.left) && Avl(n.right) && -1 <= n.bal <= 1
    requires n.bal == Height(n.right) - (Height(n.left) + 1)
    ensures var p := ShrunkLeft(n);
            && Avl(p.0) && Height(p.0) + (if p.1 then 1 else 0) == Max(Height(n.left) + 1, Height(n.right)) + 1
  {
    var l, r := n.left, n.right;
    if n.bal > 0 {
      RotateLeftBalances(n, false);
    } else {
      var t := Node(l, n.cont, if n.bal == 0 then 1 else 0, r);
      assert ShrunkLeft(n) == (t, n.bal != 0);
      assert Avl(t);
    }
  }

  /** The mirror of ShrunkLeftBalances. */
  lemma ShrunkRightBalances<T>(n: Tree<T>)
    requires n.Node? && Avl(n.left) && Avl(n.right) && -1 <= n.bal <= 1
    requires n.bal == (Height(n.right) + 1) - Height(n.left)
    ensures var p := ShrunkRight(n);
            && Avl(p.0) && Height(p.0) + (if p.1 then 1 else 0) == Max(Height(n.left), Height(n.right) + 1) + 1
  {
    var l, r := n.left, n.right;
    if n.bal < 0 {
      RotateRightBalances(n, false);
    } else {
      var t := Node(l, n.cont, if n.bal == 0 then -1 else 0, r);
      assert ShrunkRight(n) == (t, n.bal != 0);
      assert Avl(t);
    }
  }

  /** Rebalancing keeps the contents in order. */
  lemma RebalanceKeepsOrder<T>(n: Tree<T>)
    requires n.Node?
    ensures InOrder(GrewLeft(n).0) == InOrder(n) && InOrder(GrewRight(n).0) == InOrder(n)
    ensures InOrder(ShrunkLeft(n).0) == InOrder(n) && InOrder(ShrunkRight(n).0) == InOrder(n)
  {
    RotateRightKeepsOrder(n, true);
    RotateRightKeepsOrder(n, false);
    RotateLeftKeepsOrder(n, true);
    RotateLeftKeepsOrder(n, false);
  }

  // ------------------------------------------------------------ insert

  /** How an insertion ended: a new node was linked in, a content comparing
      Equal was found (and handed to onUpdate together with the new one),
      or the new node could not be allocated. */
  datatype Outcome<T> = Added | Duplicate(existing: T) | NoNode

  /** The subtree after an insertion and whether it grew by one level. */
  datatype Grown<T> = Grown(tree: Tree<T>, grew: bool, out: Outcome<T>)

  /** insert, insertLeft and insertRight (src/tsalgo/tree.c:139-172, 383-425):
      descend by comparison, link a new leaf at the empty place (`alloc`
      says whether maketreenode succeeds), and rebalance on the way back
      while the subtree keeps growing. A duplicate or a failed allocation
      returns at once and leaves every node on the path untouched. */
  function Ins<T>(t: Tree<T>, x: T, cmp: (T, T) -> Cmp, alloc: bool): Grown<T> {
    match t
    case Nil =>
      if alloc then Grown(Node(Nil, x, 0, Nil), true, Added) else Grown(Nil, false, NoNode)
    case Node(l, y, b, r) =>
      var c := cmp(x, y);
      if c == Less then
        var s := Ins(l, x, cmp, alloc);
        if !s.out.Added? then Grown(t, false, s.out)
        else if s.grew then
          var p := GrewLeft(Node(s.tree, y, b, r));
          Grown(p.0, p.1, Added)
        else Grown(Node(s.tree, y, b, r), false, Added)
      else if c == Greater then
        var s := Ins(r, x, cmp, alloc);
        if !s.out.Added? then Grown(t, false, s.out)
        else if s.grew then
          var p := GrewRight(Node(l, y, b, s.tree));
          Grown(p.0, p.1, Added)
        else Grown(Node(l, y, b, s.tree), false, Added)
      else Grown(t, false, Duplicate(y))
  }

  /** An insertion that adds no node changes nothing. */
  lemma {:induction false} InsUnchanged<T>(t: Tree<T>, x: T, cmp: (T, T) -> Cmp, alloc: bool)
    ensures var s := Ins(t, x, cmp, alloc);
            !s.out.Added? ==> s.tree == t && !s.grew
  {
  }

  /** Insertion keeps the AVL invariant. The subtree grows by one level
      exactly when the flag says so, and a subtree that grew is a new leaf
      or leans to one side. */
  lemma {:induction false} InsBalances<T>(t: Tree<T>, x: T, cmp: (T, T) -> Cmp, alloc: bool)
    requires Avl(t)
    ensures var s := Ins(t, x, cmp, alloc);
            && Avl(s.tree) && Height(s.tree) == Height(t) + (if s.grew then 1 else 0)
            && (s.grew ==> s.tree.Node? && (Height(s.tree) == 1 || s.tree.bal != 0))
  {
    match t
    case Nil =>
    case Node(l, y, b, r) =>
      var c := cmp(x, y);
      if c == Less {
        InsBalances(l, x, cmp, alloc);
        var s := Ins(l, x, cmp, alloc);
        if s.out.Added? {
          InsLeft(l, y, b, r, s.tree, s.grew);
          var g := if s.grew then GrewLeft(Node(s.tree, y, b, r)) else (Node(s.tree, y, b, r), false);
          assert Ins(t, x, cmp, alloc) == Grown(g.0, g.1, Added);
        }
      } else if c == Greater {
        InsBalances(r, x, cmp, alloc);
        var s := Ins(r, x, cmp, alloc);
        if s.out.Added? {
          InsRight(l, y, b, r, s.tree, s.grew);
          var g := if s.grew then GrewRight(Node(l, y, b, s.tree)) else (Node(l, y, b, s.tree), false);
          assert Ins(t, x, cmp, alloc) == Grown(g.0, g.1, Added);
        }
      }
  }

  /** One step back up from an insertion into the left subtree, which
      became `l2`. */
  lemma InsLeft<T>(l: Tree<T>, y: T, b: int, r: Tree<T>, l2: Tree<T>, grew: bool)
    requires Avl(Node(l, y, b, r)) && Avl(l2) && Height(l2) == Height(l) + (if grew then 1 else 0)
    requires grew ==> l2.Node? && (Height(l2) == 1 || l2.bal != 0)
    ensures var g := if grew then GrewLeft(Node(l2, y, b, r)) else (Node(l2, y, b, r), false);
            && Avl(g.0) && Height(g.0) == Height(Node(l, y, b, r)) + (if g.1 then 1 else 0)
            && (g.1 ==> g.0.Node? && (Height(g.0) == 1 || g.0.bal != 0))
  {
    if grew {
      GrewLeftBalances(Node(l2, y, b, r));
    }
  }

  /** One step back up from an insertion into the right subtree, which
      became `r2`. */
  lemma InsRight<T>(l: Tree<T>, y: T, b: int, r: Tree<T>, r2: Tree<T>, grew: bool)
    requires Avl(Node(l, y, b, r)) && Avl(r2) && Height(r2) == Height(r) + (if grew then 1 else 0)
    requires grew ==> r2.Node? && (Height(r2) == 1 || r2.bal != 0)
    ensures var g := if grew then GrewRight(Node(l, y, b, r2)) else (Node(l, y, b, r2), false);
            && Avl(g.0) && Height(g.0) == Height(Node(l, y, b, r)) + (if g.1 then 1 else 0)
            && (g.1 ==> g.0.Node? && (Height(g.0) == 1 || g.0.bal != 0))
  {
    if grew {
      GrewRightBalances(Node(l, y, b, r2));
    }
  }

  // ------------------------------------------------------------ find

  /** treefind (src/tsalgo/tree.c:70-83): descend by comparison until a
      content compares Equal. */
  function Find<T>(t: Tree<T>, x: T, cmp: (T, T) -> Cmp): Option<T> {
    match t
    case Nil => None
    case Node(l, y, _, r) =>
      var c := cmp(x, y);
      if c == Equal then Some(y)
      else if c == Less then Find(l, x, cmp)
      else Find(r, x, cmp)
  }

  /** Insertion follows the search path: it reports the content find would
      return as the duplicate, and adds a node only when find returns
      nothing and the allocation succeeds. */
  lemma {:induction false} InsFollowsFind<T>(t: Tree<T>, x: T, cmp: (T, T) -> Cmp, alloc: bool)
    ensures Ins(t, x, cmp, alloc).out == match Find(t, x, cmp)
                                        case Some(e) => Duplicate(e)
                                        case None => if alloc then Added else NoNode
  {
    match t
    case Nil =>
    case Node(l, y, b, r) =>
      InsFollowsFind(l, x, cmp, alloc);
      InsFollowsFind(r, x, cmp, alloc);
  }

  // ------------------------------------------------------------ delete

  /** The subtree after removing its greatest content, whether it shrank,
      and that content. */
  datatype Trimmed<T> = Trimmed(tree: Tree<T>, shrank: bool, max: T)

  /** del (src/tsalgo/tree.c:431-468): walk right to the greatest content,
      unlink its node by putting its left subtree in its place, and
      rebalance on the way back while the subtree keeps shrinking. The
      content moves into the node being deleted; that is left to the
      caller here. */
  function DelMax<T>(t: Tree<T>): Trimmed<T>
    requires t.Node?
  {
    var Node(l, y, b, r) := t;
    if r.Node? then
      var s := DelMax(r);
      var n := Node(l, y, b, s.tree);
      if s.shrank then
        var p := ShrunkRight(n);
        Trimmed(p.0, p.1, s.max)
      else Trimmed(n, false, s.max)
    else Trimmed(l, true, y)
  }

  /** The subtree after a deletion, whether it shrank, and the content
      handed to onDelete, if any. */
  datatype Shrunk<T> = Shrunk(tree: Tree<T>, shrank: bool, removed: Option<T>)

  /** delete (src/tsalgo/tree.c:474-562): descend by comparison; a node with
      at most one subtree is replaced by that subtree, a node with two takes
      the greatest content of its left subtree (del), and its own content
      goes to onDelete. The balance is restored on the way back while the
      subtree keeps shrinking. */
  function Del<T>(t: Tree<T>, x: T, cmp: (T, T) -> Cmp): Shrunk<T> {
    match t
    case Nil => Shrunk(Nil, false, None)
    case Node(l, y, b, r) =>
      var c := cmp(x, y);
      if c == Less then
        if l.Nil? then Shrunk(t, false, None)
        else
          var s := Del(l, x, cmp);
          var n := Node(s.tree, y, b, r);
          if s.shrank then
            var p := ShrunkLeft(n);
            Shrunk(p.0, p.1, s.removed)
          else Shrunk(n, false, s.removed)
      else if c == Greater then
        if r.Nil? then Shrunk(t, false, None)
        else
          var s := Del(r, x, cmp);
          var n := Node(l, y, b, s.tree);
          if s.shrank then
            var p := ShrunkRight(n);
            Shrunk(p.0, p.1, s.removed)
          else Shrunk(n, false, s.removed)
      else if l.Nil? && r.Nil? then Shrunk(Nil, true, Some(y))
      else if r.Nil? then Shrunk(l, true, Some(y))
      else if l.Nil? then Shrunk(r, true, Some(y))
      else
        var m := DelMax(l);
        var n := Node(m.tree, m.max, b, r);
        if m.shrank then
          var p := ShrunkLeft(n);
          Shrunk(p.0, p.1, Some(y))
        else Shrunk(n, false, Some(y))
  }

  /** Removing the greatest content keeps the AVL invariant, and the
      subtree shrinks by one level exactly when the flag says so. */
  lemma {:induction false} DelMaxBalances<T>(t: Tree<T>)
    requires t.Node? && Avl(t)
    ensures var s := DelMax(t);
            Avl(s.tree) && Height(s.tree) + (if s.shrank then 1 else 0) == Height(t)
  {
    var Node(l, y, b, r) := t;
    if r.Node? {
      DelMaxBalances(r);
      var s := DelMax(r);
      DelRight(l, y, b, r, s.tree, s.shrank);
    }
  }

  /** The content removed by DelMax is the last one in order. */
  lemma {:induction false} DelMaxOrder<T>(t: Tree<T>)
    requires t.Node?
    ensures InOrder(t) == InOrder(DelMax(t).tree) + [DelMax(t).max]
  {
    var Node(l, y, b, r) := t;
    if r.Node? {
      DelMaxOrder(r);
      var s := DelMax(r);
      var n := Node(l, y, b, s.tree);
      RebalanceKeepsOrder(n);
    }
  }

  /** Deletion keeps the AVL invariant; the subtree shrinks by one level
      exactly when the flag says so, and a deletion that finds nothing
      changes nothing. */
  lemma {:induction false} DelBalances<T>(t: Tree<T>, x: T, cmp: (T, T) -> Cmp)
    requires Avl(t)
    ensures var s := Del(t, x, cmp);
            && Avl(s.tree) && Height(s.tree) + (if s.shrank then 1 else 0) == Height(t)
            && (s.removed.None? ==> s.tree == t && !s.shrank)
  {
    match t
    case Nil =>
    case Node(l, y, b, r) =>
      var c := cmp(x, y);
      if c == Less {
        if l.Node? {
          DelBalances(l, x, cmp);
          var s := Del(l, x, cmp);
          DelLeft(l, y, b, r, s.tree, s.shrank);
        }
      } else if c == Greater {
        if r.Node? {
          DelBalances(r, x, cmp);
          var s := Del(r, x, cmp);
          DelRight(l, y, b, r, s.tree, s.shrank);
        }
      } else if l.Node? && r.Node? {
        DelMaxBalances(l);
        var m := DelMax(l);
        DelLeft(l, m.max, b, r, m.tree, m.shrank);
      }
  }

  /** One step back up from a deletion in the left subtree, which became
      `l2`. */
  lemma DelLeft<T>(l: Tree<T>, y: T, b: int, r: Tree<T>, l2: Tree<T>, shrank: bool)
    requires Avl(Node(l, y, b, r)) && Avl(l2) && Height(l2) + (if shrank then 1 else 0) == Height(l)
    ensures var g := if shrank then ShrunkLeft(Node(l2, y, b, r)) else (Node(l2, y, b, r), false);
            && Avl(g.0) && Height(g.0) + (if g.1 then 1 else 0) == Height(Node(l, y, b, r))
  {
    if shrank {
      ShrunkLeftBalances(Node(l2, y, b, r));
    }
  }

  /** One step back up from a deletion in the right subtree, which became
      `r2`. */
  lemma DelRight<T>(l: Tree<T>, y: T, b: int, r: Tree<T>, r2: Tree<T>, shrank: bool)
    requires Avl(Node(l, y, b, r)) && Avl(r2) && Height(r2) + (if shrank then 1 else 0) == Height(r)
    ensures var g := if shrank then ShrunkRight(Node(l, y, b, r2)) else (Node(l, y, b, r2), false);
            && Avl(g.0) && Height(g.0) + (if g.1 then 1 else 0) == Height(Node(l, y, b, r))
  {
    if shrank {
      ShrunkRightBalances(Node(l, y, b, r2));
    }
  }

  /** Deletion follows the search path: the content handed to onDelete is
      the one find returns. */
  lemma {:induction false} DelFollowsFind<T>(t: Tree<T>, x: T, cmp: (T, T) -> Cmp)
    ensures Del(t, x, cmp).removed == Find(t, x, cmp)
  {
    match t
    case Nil =>
    case Node(l, y, b, r) =>
      DelFollowsFind(l, x, cmp);
      DelFollowsFind(r, x, cmp);
  }
}
