/** The search-tree side of src/tsalgo/tree.c: the contents read in order are
    strictly increasing, find answers by that order, insertion puts the new
    content in its place and deletion takes out the one content comparing
    Equal. Each is stated against a reference on sequences (`Place`,
    `Drop`), with the tree's shape left to the AvlTree module. */
module TreeOrder {
  import opened Base
  import opened Order
  import opened AvlTree

  /** Every element is strictly less than every later one. */
  ghost predicate Increasing<T(!new)>(s: seq<T>, cmp: (T, T) -> Cmp) {
    forall i, j :: 0 <= i < j < |s| ==> cmp(s[i], s[j]) == Less
  }

  /** The search-tree invariant: toList yields a strictly increasing
      sequence. */
  ghost predicate Bst<T(!new)>(t: Tree<T>, cmp: (T, T) -> Cmp) {
    Increasing(InOrder(t), cmp)
  }

  /** A search tree's subtrees are search trees, with everything on the
      left below the node and everything on the right above it. */
  lemma BstSplit<T(!new)>(t: Tree<T>, cmp: (T, T) -> Cmp)
    requires t.Node? && Bst(t, cmp)
    ensures Bst(t.left, cmp) && Bst(t.right, cmp)
    ensures forall e :: e in InOrder(t.left) ==> cmp(e, t.cont) == Less
    ensures forall e :: e in InOrder(t.right) ==> cmp(t.cont, e) == Less
  {
    var l, r, s := InOrder(t.left), InOrder(t.right), InOrder(t);
    var n := |l|;
    assert forall i :: 0 <= i < n ==> s[i] == l[i];
    assert forall j :: 0 <= j < |r| ==> s[n + 1 + j] == r[j];
    assert s[n] == t.cont;
    forall e | e in l ensures cmp(e, t.cont) == Less {
      var i :| 0 <= i < n && l[i] == e;
      assert s[i] == e;
    }
    forall e | e in r ensures cmp(t.cont, e) == Less {
      var j :| 0 <= j < |r| && r[j] == e;
      assert s[n + 1 + j] == e;
    }
  }

  /** `x` is strictly below every element of `s`. */
  ghost predicate Under<T(!new)>(x: T, s: seq<T>, cmp: (T, T) -> Cmp) {
    forall e :: e in s ==> cmp(x, e) == Less
  }

  /** Nothing in `s` compares Equal to `x`. */
  ghost predicate Absent<T(!new)>(x: T, s: seq<T>, cmp: (T, T) -> Cmp) {
    forall e :: e in s ==> cmp(x, e) != Equal
  }

  lemma IncreasingCons<T(!new)>(x: T, s: seq<T>, cmp: (T, T) -> Cmp)
    requires Increasing(s, cmp) && Under(x, s, cmp)
    ensures Increasing([x] + s, cmp)
  {
    var t := [x] + s;
    forall i, j | 0 <= i < j < |t| ensures cmp(t[i], t[j]) == Less {
      assert t[j] == s[j - 1] && t[j] in s;
      if i > 0 {
        assert t[i] == s[i - 1];
      }
    }
  }

  lemma IncreasingTail<T(!new)>(s: seq<T>, cmp: (T, T) -> Cmp)
    requires |s| > 0 && Increasing(s, cmp)
    ensures Increasing(s[1..], cmp) && Under(s[0], s[1..], cmp)
  {
    var t := s[1..];
    forall e | e in t ensures cmp(s[0], e) == Less {
      var j :| 0 <= j < |t| && t[j] == e;
      assert s[j + 1] == e;
    }
  }

  // ------------------------------------------------------------ find

  /** What find returns is a content of the tree comparing Equal. */
  lemma {:induction false} FindFound<T>(t: Tree<T>, x: T, cmp: (T, T) -> Cmp)
    ensures Find(t, x, cmp).Some? ==> Find(t, x, cmp).value in InOrder(t) && cmp(x, Find(t, x, cmp).value) == Equal
  {
    match t
    case Nil =>
    case Node(l, y, _, r) =>
      FindFound(l, x, cmp);
      FindFound(r, x, cmp);
  }

  /** In a search tree find returns nothing exactly when no content compares
      Equal. */
  lemma {:induction false} FindMissing<T(!new)>(t: Tree<T>, x: T, cmp: (T, T) -> Cmp)
    requires Comparator(cmp) && Bst(t, cmp)
    ensures Find(t, x, cmp).None? <==> Absent(x, InOrder(t), cmp)
  {
    FindFound(t, x, cmp);
    match t
    case Nil =>
    case Node(l, y, _, r) =>
      BstSplit(t, cmp);
      var c := cmp(x, y);
      if c == Less {
        FindMissing(l, x, cmp);
        if Find(t, x, cmp).None? {
          forall e | e in InOrder(r) ensures cmp(x, e) != Equal {
            LessTrans(cmp, x, y, e);
          }
        }
      } else if c == Greater {
        FindMissing(r, x, cmp);
        if Find(t, x, cmp).None? {
          forall e | e in InOrder(l) ensures cmp(x, e) != Equal {
            LessTrans(cmp, e, y, x);
          }
        }
      }
  }

  // ------------------------------------------------------------ insert

  /** Sorted insertion: `x` goes before the first element above it. */
  function Place<T>(s: seq<T>, x: T, cmp: (T, T) -> Cmp): (r: seq<T>)
    ensures |r| == |s| + 1 && multiset(r) == multiset(s) + multiset{x}
  {
    if |s| == 0 then [x]
    else if cmp(x, s[0]) == Less then [x] + s
    else
      assert s == [s[0]] + s[1..];
      [s[0]] + Place(s[1..], x, cmp)
  }

  /** Placing into a sequence whose continuation starts above `x` stays in
      the first part. */
  lemma {:induction false} PlaceBefore<T>(a: seq<T>, b: seq<T>, x: T, cmp: (T, T) -> Cmp)
    requires |b| > 0 && cmp(x, b[0]) == Less
    ensures Place(a + b, x, cmp) == Place(a, x, cmp) + b
  {
    if |a| > 0 && cmp(x, a[0]) != Less {
      assert (a + b)[1..] == a[1..] + b;
      PlaceBefore(a[1..], b, x, cmp);
    }
  }

  /** Placing past a prefix with nothing above `x` skips that prefix. */
  lemma {:induction false} PlaceAfter<T>(a: seq<T>, b: seq<T>, x: T, cmp: (T, T) -> Cmp)
    requires forall i :: 0 <= i < |a| ==> cmp(x, a[i]) != Less
    ensures Place(a + b, x, cmp) == a + Place(b, x, cmp)
  {
    if |a| == 0 {
      assert a + b == b;
    } else {
      assert (a + b)[0] == a[0];
      assert (a + b)[1..] == a[1..] + b;
      PlaceAfter(a[1..], b, x, cmp);
      assert a == [a[0]] + a[1..];
    }
  }

  /** Placing a content Equal to nothing keeps a sequence increasing. */
  lemma {:induction false} PlaceIncreasing<T(!new)>(s: seq<T>, x: T, cmp: (T, T) -> Cmp)
    requires Comparator(cmp) && Increasing(s, cmp) && Absent(x, s, cmp)
    ensures Increasing(Place(s, x, cmp), cmp)
  {
    if |s| > 0 {
      IncreasingTail(s, cmp);
      assert s[0] in s;
      if cmp(x, s[0]) == Less {
        forall e | e in s ensures cmp(x, e) == Less {
          if e != s[0] {
            assert e in s[1..] by { assert s == [s[0]] + s[1..]; }
            LessTrans(cmp, x, s[0], e);
          }
        }
        IncreasingCons(x, s, cmp);
      } else {
        assert Absent(x, s[1..], cmp) by {
          forall e | e in s[1..] ensures e in s { }
        }
        PlaceIncreasing(s[1..], x, cmp);
        var p := Place(s[1..], x, cmp);
        forall e | e in p ensures cmp(s[0], e) == Less {
          assert e in multiset(p);
        }
        IncreasingCons(s[0], p, cmp);
      }
    }
  }

  /** Insertion into a search tree puts the new content in its sorted
      place, and changes nothing when it adds no node. */
  lemma {:induction false} InsPlaces<T(!new)>(t: Tree<T>, x: T, cmp: (T, T) -> Cmp, alloc: bool)
    requires Comparator(cmp) && Bst(t, cmp)
    ensures var s := Ins(t, x, cmp, alloc);
            InOrder(s.tree) == if s.out.Added? then Place(InOrder(t), x, cmp) else InOrder(t)
  {
    InsUnchanged(t, x, cmp, alloc);
    match t
    case Nil =>
    case Node(l, y, b, r) =>
      BstSplit(t, cmp);
      var c := cmp(x, y);
      if c == Less {
        InsPlaces(l, x, cmp, alloc);
        var s := Ins(l, x, cmp, alloc);
        if s.out.Added? {
          PlaceLeft(l, y, b, r, s.tree, s.grew, x, cmp);
        }
      } else if c == Greater {
        InsPlaces(r, x, cmp, alloc);
        var s := Ins(r, x, cmp, alloc);
        if s.out.Added? {
          forall e | e in InOrder(l) ensures cmp(x, e) != Less {
            LessTrans(cmp, e, y, x);
          }
          PlaceRight(l, y, b, r, s.tree, s.grew, x, cmp);
        }
      }
  }

  /** One step back up from a sorted insertion into the left subtree. */
  lemma PlaceLeft<T>(l: Tree<T>, y: T, b: int, r: Tree<T>, l2: Tree<T>, grew: bool, x: T, cmp: (T, T) -> Cmp)
    requires cmp(x, y) == Less && InOrder(l2) == Place(InOrder(l), x, cmp)
    ensures var n := Node(l2, y, b, r);
            var g := if grew then GrewLeft(n) else (n, false);
            InOrder(g.0) == Place(InOrder(Node(l, y, b, r)), x, cmp)
  {
    RebalanceKeepsOrder(Node(l2, y, b, r));
    PlaceBeforeNode(InOrder(l), y, InOrder(r), x, cmp);
  }

  lemma PlaceBeforeNode<T>(L: seq<T>, y: T, R: seq<T>, x: T, cmp: (T, T) -> Cmp)
    requires cmp(x, y) == Less
    ensures Place(L + [y] + R, x, cmp) == Place(L, x, cmp) + [y] + R
  {
    assert L + [y] + R == L + ([y] + R);
    PlaceBefore(L, [y] + R, x, cmp);
  }

  /** One step back up from a sorted insertion into the right subtree. */
  lemma PlaceRight<T>(l: Tree<T>, y: T, b: int, r: Tree<T>, r2: Tree<T>, grew: bool, x: T, cmp: (T, T) -> Cmp)
    requires cmp(x, y) == Greater && InOrder(r2) == Place(InOrder(r), x, cmp)
    requires forall e :: e in InOrder(l) ==> cmp(x, e) != Less
    ensures var n := Node(l, y, b, r2);
            var g := if grew then GrewRight(n) else (n, false);
            InOrder(g.0) == Place(InOrder(Node(l, y, b, r)), x, cmp)
  {
    var L, R := InOrder(l), InOrder(r);
    RebalanceKeepsOrder(Node(l, y, b, r2));
    forall i | 0 <= i < |L| + 1 ensures cmp(x, (L + [y])[i]) != Less {
      if i < |L| {
        assert L[i] in L;
      }
    }
    PlaceAfter(L + [y], R, x, cmp);
  }

  // ------------------------------------------------------------ delete

  /** The sequence without its first element comparing Equal to `x`. */
  function Drop<T>(s: seq<T>, x: T, cmp: (T, T) -> Cmp): (r: seq<T>)
    ensures |r| <= |s| <= |r| + 1
  {
    if |s| == 0 then []
    else if cmp(x, s[0]) == Equal then
      assert s == [s[0]] + s[1..];
      s[1..]
    else
      assert s == [s[0]] + s[1..];
      [s[0]] + Drop(s[1..], x, cmp)
  }

  /** Dropping a key just placed into a sequence without it gives the
      sequence back. */
  lemma {:induction false} PlaceDrop<T(!new)>(s: seq<T>, x: T, cmp: (T, T) -> Cmp)
    requires Comparator(cmp) && Absent(x, s, cmp)
    ensures Drop(Place(s, x, cmp), x, cmp) == s
    decreases |s|
  {
    ComparatorEqual(cmp, x, x);
    if |s| > 0 && cmp(x, s[0]) != Less {
      assert s == [s[0]] + s[1..];
      PlaceDrop(s[1..], x, cmp);
      var p := Place(s, x, cmp);
      assert p[1..] == Place(s[1..], x, cmp);
    } else if |s| > 0 {
      assert ([x] + s)[1..] == s;
    }
  }

  /** Without an element comparing Equal, nothing is dropped; with one, one
      element is. */
  lemma {:induction false} DropCount<T(!new)>(s: seq<T>, x: T, cmp: (T, T) -> Cmp)
    ensures Absent(x, s, cmp) ==> Drop(s, x, cmp) == s
    ensures !Absent(x, s, cmp) ==> |Drop(s, x, cmp)| == |s| - 1
  {
    if |s| > 0 {
      DropCount(s[1..], x, cmp);
      assert s == [s[0]] + s[1..];
      assert forall e :: e in s[1..] ==> e in s;
    }
  }

  /** Dropping before a part without an Equal element stays in front of it. */
  lemma {:induction false} DropBefore<T(!new)>(a: seq<T>, b: seq<T>, x: T, cmp: (T, T) -> Cmp)
    requires Absent(x, b, cmp)
    ensures Drop(a + b, x, cmp) == Drop(a, x, cmp) + b
  {
    if |a| == 0 {
      DropCount(b, x, cmp);
      assert a + b == b;
    } else {
      assert (a + b)[0] == a[0];
      assert (a + b)[1..] == a[1..] + b;
      DropBefore(a[1..], b, x, cmp);
    }
  }

  /** Dropping past a prefix without an Equal element skips that prefix. */
  lemma {:induction false} DropAfter<T(!new)>(a: seq<T>, b: seq<T>, x: T, cmp: (T, T) -> Cmp)
    requires Absent(x, a, cmp)
    ensures Drop(a + b, x, cmp) == a + Drop(b, x, cmp)
  {
    if |a| == 0 {
      assert a + b == b;
    } else {
      assert a[0] in a;
      assert (a + b)[0] == a[0];
      assert (a + b)[1..] == a[1..] + b;
      assert Absent(x, a[1..], cmp) by {
        forall e | e in a[1..] ensures e in a { }
      }
      DropAfter(a[1..], b, x, cmp);
      assert a == [a[0]] + a[1..];
    }
  }

  /** Dropping only takes elements out. */
  lemma {:induction false} DropWithin<T>(s: seq<T>, x: T, cmp: (T, T) -> Cmp)
    ensures forall e :: e in Drop(s, x, cmp) ==> e in s
  {
    if |s| > 0 && cmp(x, s[0]) != Equal {
      DropWithin(s[1..], x, cmp);
      assert Drop(s, x, cmp) == [s[0]] + Drop(s[1..], x, cmp);
    }
  }

  /** Dropping keeps a sequence increasing, and from an increasing
      sequence it takes out every element comparing Equal. */
  lemma {:induction false} DropIncreasing<T(!new)>(s: seq<T>, x: T, cmp: (T, T) -> Cmp)
    requires Comparator(cmp) && Increasing(s, cmp)
    ensures Increasing(Drop(s, x, cmp), cmp) && Absent(x, Drop(s, x, cmp), cmp)
  {
    if |s| > 0 {
      IncreasingTail(s, cmp);
      if cmp(x, s[0]) == Equal {
        forall e | e in s[1..] ensures cmp(x, e) != Equal {
          LessTrans(cmp, x, s[0], e);
        }
      } else {
        DropIncreasing(s[1..], x, cmp);
        var d := Drop(s[1..], x, cmp);
        DropWithin(s[1..], x, cmp);
        forall e | e in d ensures cmp(s[0], e) == Less {
          assert e in s[1..];
        }
        IncreasingCons(s[0], d, cmp);
      }
    }
  }

  /** Deleting from a search tree drops the content comparing Equal from
      the contents in order. */
  lemma {:induction false} DelDrops<T(!new)>(t: Tree<T>, x: T, cmp: (T, T) -> Cmp)
    requires Comparator(cmp) && Bst(t, cmp)
    ensures InOrder(Del(t, x, cmp).tree) == Drop(InOrder(t), x, cmp)
  {
    match t
    case Nil =>
    case Node(l, y, b, r) =>
      BstSplit(t, cmp);
      var L, R := InOrder(l), InOrder(r);
      var c := cmp(x, y);
      if c == Less {
        assert Absent(x, [y] + R, cmp) by {
          forall e | e in [y] + R ensures cmp(x, e) != Equal {
            if e != y { LessTrans(cmp, x, y, e); }
          }
        }
        DropBeforeNode(L, y, R, x, cmp);
        if l.Node? {
          DelDrops(l, x, cmp);
          var s := Del(l, x, cmp);
          DropLeft(l, y, b, r, s.tree, s.shrank, x, cmp);
        } else {
          DropCount(L, x, cmp);
        }
      } else {
        assert Absent(x, L, cmp) by {
          forall e | e in L ensures cmp(x, e) != Equal {
            LessTrans(cmp, e, y, x);
          }
        }
        if c == Greater {
          DropAfterNode(L, y, R, x, cmp);
          if r.Node? {
            DelDrops(r, x, cmp);
            var s := Del(r, x, cmp);
            DropRight(l, y, b, r, s.tree, s.shrank, x, cmp);
          } else {
            DropCount(R, x, cmp);
          }
        } else {
          DelHere(l, y, b, r, x, cmp);
        }
      }
  }

  /** Deleting the node itself leaves the contents on both sides of it. */
  lemma DelHere<T(!new)>(l: Tree<T>, y: T, b: int, r: Tree<T>, x: T, cmp: (T, T) -> Cmp)
    requires Absent(x, InOrder(l), cmp) && cmp(x, y) == Equal
    ensures InOrder(Del(Node(l, y, b, r), x, cmp).tree) == Drop(InOrder(Node(l, y, b, r)), x, cmp)
  {
    var t := Node(l, y, b, r);
    DropHere(InOrder(l), y, InOrder(r), x, cmp);
    if l.Node? && r.Node? {
      DelMaxOrder(l);
      var m := DelMax(l);
      var n := Node(m.tree, m.max, b, r);
      var g := if m.shrank then ShrunkLeft(n) else (n, false);
      assert Del(t, x, cmp).tree == g.0;
      RebalanceKeepsOrder(n);
    } else if l.Node? {
      assert Del(t, x, cmp).tree == l;
    } else {
      assert Del(t, x, cmp).tree == r;
    }
  }

  /** One step back up from a deletion in the left subtree. */
  lemma DropLeft<T>(l: Tree<T>, y: T, b: int, r: Tree<T>, l2: Tree<T>, shrank: bool, x: T, cmp: (T, T) -> Cmp)
    requires InOrder(l2) == Drop(InOrder(l), x, cmp)
    requires Drop(InOrder(Node(l, y, b, r)), x, cmp) == Drop(InOrder(l), x, cmp) + [y] + InOrder(r)
    ensures var n := Node(l2, y, b, r);
            var g := if shrank then ShrunkLeft(n) else (n, false);
            InOrder(g.0) == Drop(InOrder(Node(l, y, b, r)), x, cmp)
  {
    RebalanceKeepsOrder(Node(l2, y, b, r));
  }

  /** One step back up from a deletion in the right subtree. */
  lemma DropRight<T>(l: Tree<T>, y: T, b: int, r: Tree<T>, r2: Tree<T>, shrank: bool, x: T, cmp: (T, T) -> Cmp)
    requires InOrder(r2) == Drop(InOrder(r), x, cmp)
    requires Drop(InOrder(Node(l, y, b, r)), x, cmp) == InOrder(l) + [y] + Drop(InOrder(r), x, cmp)
    ensures var n := Node(l, y, b, r2);
            var g := if shrank then ShrunkRight(n) else (n, false);
            InOrder(g.0) == Drop(InOrder(Node(l, y, b, r)), x, cmp)
  {
    RebalanceKeepsOrder(Node(l, y, b, r2));
  }

  lemma DropBeforeNode<T(!new)>(L: seq<T>, y: T, R: seq<T>, x: T, cmp: (T, T) -> Cmp)
    requires Absent(x, [y] + R, cmp)
    ensures Drop(L + [y] + R, x, cmp) == Drop(L, x, cmp) + [y] + R
  {
    assert L + [y] + R == L + ([y] + R);
    DropBefore(L, [y] + R, x, cmp);
  }

  lemma DropAfterNode<T(!new)>(L: seq<T>, y: T, R: seq<T>, x: T, cmp: (T, T) -> Cmp)
    requires Absent(x, L, cmp) && cmp(x, y) != Equal
    ensures Drop(L + [y] + R, x, cmp) == L + [y] + Drop(R, x, cmp)
  {
    assert Absent(x, L + [y], cmp);
    DropAfter(L + [y], R, x, cmp);
  }

  lemma DropHere<T(!new)>(L: seq<T>, y: T, R: seq<T>, x: T, cmp: (T, T) -> Cmp)
    requires Absent(x, L, cmp) && cmp(x, y) == Equal
    ensures Drop(L + [y] + R, x, cmp) == L + R
  {
    assert L + [y] + R == L + ([y] + R);
    DropAfter(L, [y] + R, x, cmp);
    assert ([y] + R)[1..] == R;
  }
}
