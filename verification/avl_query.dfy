/** The read-only tree operations: `findNode`/`find`, `findNext`,
    `findPrevious`, `findParentNode`/`findEqOrGreater`, `findMax`,
    `arrayInOrder` (Wet1/AVLTree.h) and `select` (Wet2/AVLTree.h).

    A node pointer is modelled as its position: the path of child directions
    from the root. Climbing to `parent` drops the last direction of the path,
    and `getSonType` reads it. */
module AvlQuery {
  import opened Wrappers
  import opened Orders
  import opened AvlNode

  // ------------------------------------------------------------------
  // Positions and in-order indices
  // ------------------------------------------------------------------

  /** The in-order index, within `Items(t)`, of the first item of the subtree at `q`. */
  ghost function Off<K, V>(t: Tree<K, V>, q: seq<Dir>): nat
    decreases |q|
  {
    if |q| == 0 || t.Leaf? then 0
    else if q[0] == GoLeft then Off(t.left, q[1..])
    else |Items(t.left)| + 1 + Off(t.right, q[1..])
  }

  /** The subtree at a position occupies a contiguous window of the in-order sequence. */
  lemma {:induction false} OffWindow<K, V>(t: Tree<K, V>, q: seq<Dir>)
    ensures Off(t, q) + |Items(At(t, q))| <= |Items(t)|
    ensures Items(At(t, q)) == Items(t)[Off(t, q)..Off(t, q) + |Items(At(t, q))|]
    decreases |q|
  {
    if |q| > 0 && t.Node? {
      var L, R := Items(t.left), Items(t.right);
      assert Items(t) == L + [(t.key, t.value)] + R;
      if q[0] == GoLeft {
        OffWindow(t.left, q[1..]);
        assert Items(t)[..|L|] == L;
      } else {
        OffWindow(t.right, q[1..]);
        assert Items(t)[|L| + 1..] == R;
      }
    }
  }

  /** The node at position `q` sits at in-order index `Off(t, q) + |Items(left)|`. */
  lemma NodeIndex<K, V>(t: Tree<K, V>, q: seq<Dir>)
    requires At(t, q).Node?
    ensures Off(t, q) + |Items(At(t, q).left)| < |Items(t)|
    ensures Items(t)[Off(t, q) + |Items(At(t, q).left)|] == (At(t, q).key, At(t, q).value)
  {
    OffWindow(t, q);
    var n := At(t, q);
    assert Items(n) == Items(n.left) + [(n.key, n.value)] + Items(n.right);
    assert Items(n)[|Items(n.left)|] == (n.key, n.value);
  }

  /** Stepping to a child from position `q`. */
  lemma {:induction false} OffSnoc<K, V>(t: Tree<K, V>, q: seq<Dir>, d: Dir)
    requires At(t, q).Node?
    ensures At(t, q + [d]) == if d == GoLeft then At(t, q).left else At(t, q).right
    ensures Off(t, q + [d]) == if d == GoLeft then Off(t, q) else Off(t, q) + |Items(At(t, q).left)| + 1
    decreases |q|
  {
    if |q| == 0 {
      assert q + [d] == [d];
      assert [d][1..] == [];
    } else {
      assert (q + [d])[1..] == q[1..] + [d];
      if q[0] == GoLeft {
        OffSnoc(t.left, q[1..], d);
      } else {
        OffSnoc(t.right, q[1..], d);
      }
    }
  }

  /** A node's parent position holds a node too. */
  lemma ParentIsNode<K, V>(t: Tree<K, V>, q: seq<Dir>)
    requires |q| > 0 && At(t, q).Node?
    ensures At(t, q[..|q| - 1]).Node?
    ensures q == q[..|q| - 1] + [q[|q| - 1]]
  {
    AtSnoc(t, q);
  }

  // ------------------------------------------------------------------
  // find
  // ------------------------------------------------------------------

  /** `findNode`: descend by the comparator; the position of the node whose key
      compares neither smaller nor larger than `k`, or None. */
  function FindPath<K(!new), V>(lt: (K, K) -> bool, t: Tree<K, V>, k: K): (r: Option<seq<Dir>>)
    requires StrictTotalOrder(lt) && Bst(lt, t)
    ensures r.Some? <==> k in Keys(t)
    ensures r.Some? ==> At(t, r.value).Node? && At(t, r.value).key == k
  {
    match t
    case Leaf => None
    case Node(l, kk, _, rr, _, _) =>
      if lt(k, kk) then
        match FindPath(lt, l, k)
        case None => None
        case Some(p) =>
          assert ([GoLeft] + p)[1..] == p;
          Some([GoLeft] + p)
      else if lt(kk, k) then
        match FindPath(lt, rr, k)
        case None => None
        case Some(p) =>
          assert ([GoRight] + p)[1..] == p;
          Some([GoRight] + p)
      else
        Some([])
  }

  /** `find`: the value stored under `k`, or None when no key equals it. */
  function Find<K(!new), V>(lt: (K, K) -> bool, t: Tree<K, V>, k: K): (r: Option<V>)
    requires StrictTotalOrder(lt) && Bst(lt, t)
    ensures r.Some? <==> k in Map(t)
    ensures r.Some? ==> r.value == Map(t)[k]
  {
    KeysOfMap(t);
    match FindPath(lt, t, k)
    case None => None
    case Some(p) =>
      NodeIndex(t, p);
      MapOfBst(lt, t);
      Some(At(t, p).value)
  }

  /** The in-order index of a present key is unique. */
  lemma KeyIndexUnique<K(!new), V>(lt: (K, K) -> bool, t: Tree<K, V>)
    requires StrictTotalOrder(lt) && Bst(lt, t)
    ensures forall i, j | 0 <= i < |Items(t)| && 0 <= j < |Items(t)| && Items(t)[i].0 == Items(t)[j].0 :: i == j
  {
    BstSorted(lt, t);
    SortedKeysUnique(lt, Items(t));
  }

  // ------------------------------------------------------------------
  // findNext / findPrevious
  // ------------------------------------------------------------------

  /** The leftward walk of `findNext`: the value of the first in-order item of
      the subtree at `q`. */
  method LeftmostValue<K, V>(t: Tree<K, V>, q: seq<Dir>) returns (v: V)
    requires At(t, q).Node?
    ensures Off(t, q) < |Items(t)| && v == Items(t)[Off(t, q)].1
  {
    var cur := At(t, q);
    ghost var c := q;
    while cur.left.Node?
      invariant cur.Node? && cur == At(t, c) && Off(t, c) == Off(t, q)
      decreases cur
    {
      OffSnoc(t, c, GoLeft);
      c := c + [GoLeft];
      cur := cur.left;
    }
    NodeIndex(t, c);
    v := cur.value;
  }

  /** The rightward walk of `findPrevious` and `findMax`: the value of the last
      in-order item of the subtree at `q`. */
  method RightmostValue<K, V>(t: Tree<K, V>, q: seq<Dir>) returns (v: V)
    requires At(t, q).Node?
    ensures 0 < Off(t, q) + |Items(At(t, q))| <= |Items(t)|
    ensures v == Items(t)[Off(t, q) + |Items(At(t, q))| - 1].1
  {
    var cur := At(t, q);
    ghost var c := q;
    OffWindow(t, q);
    while cur.right.Node?
      invariant cur.Node? && cur == At(t, c) && Off(t, c) + |Items(cur)| == Off(t, q) + |Items(At(t, q))|
      decreases cur
    {
      OffSnoc(t, c, GoRight);
      assert Items(cur) == Items(cur.left) + [(cur.key, cur.value)] + Items(cur.right);
      c := c + [GoRight];
      cur := cur.right;
    }
    NodeIndex(t, c);
    assert Items(cur) == Items(cur.left) + [(cur.key, cur.value)];
    v := cur.value;
  }

  /** The upward walk of `findNext`: climb while the node is a right son; the
      parent of the left son reached holds the item just after the subtree at
      `q`, and reaching the root means there is none. */
  method ClimbToNext<K, V>(t: Tree<K, V>, q: seq<Dir>) returns (r: Option<V>)
    requires At(t, q).Node?
    ensures var e := Off(t, q) + |Items(At(t, q))|;
      r == if e < |Items(t)| then Some(Items(t)[e].1) else None
  {
    OffWindow(t, q);
    var c := q;
    while SonTypeOf(t, c) == RightSon
      invariant At(t, c).Node? && Off(t, c) + |Items(At(t, c))| == Off(t, q) + |Items(At(t, q))|
      decreases |c|
    {
      ParentIsNode(t, c);
      var up := c[..|c| - 1];
      OffSnoc(t, up, GoRight);
      var pn := At(t, up);
      assert Items(pn) == Items(pn.left) + [(pn.key, pn.value)] + Items(pn.right);
      c := up;
    }
    if SonTypeOf(t, c) == LeftSon {
      ParentIsNode(t, c);
      var up := c[..|c| - 1];
      OffSnoc(t, up, GoLeft);
      NodeIndex(t, up);
      return Some(At(t, up).value);
    }
    return None;
  }

  /** The upward walk of `findPrevious`: climb while the node is a left son; the
      parent of the right son reached holds the item just before the subtree at
      `q`, and reaching the root means there is none. */
  method ClimbToPrevious<K, V>(t: Tree<K, V>, q: seq<Dir>) returns (r: Option<V>)
    requires At(t, q).Node?
    ensures Off(t, q) <= |Items(t)|
    ensures r == if Off(t, q) > 0 then Some(Items(t)[Off(t, q) - 1].1) else None
  {
    OffWindow(t, q);
    var c := q;
    while SonTypeOf(t, c) == LeftSon
      invariant At(t, c).Node? && Off(t, c) == Off(t, q)
      decreases |c|
    {
      ParentIsNode(t, c);
      var up := c[..|c| - 1];
      OffSnoc(t, up, GoLeft);
      c := up;
    }
    if SonTypeOf(t, c) == RightSon {
      ParentIsNode(t, c);
      var up := c[..|c| - 1];
      OffSnoc(t, up, GoRight);
      NodeIndex(t, up);
      return Some(At(t, up).value);
    }
    return None;
  }

  /** `findNext`: the minimum of the right subtree if there is one; otherwise
      climb while the node is a right son, and answer the parent of the first
      left son, or None when the climb reaches the root. */
  method FindNext<K(!new), V>(lt: (K, K) -> bool, t: Tree<K, V>, k: K) returns (r: Result<Option<V>>)
    requires StrictTotalOrder(lt) && Bst(lt, t)
    ensures r.Failure? <==> k !in Keys(t)
    ensures r.Failure? ==> r == Failure(KeyDoesNotExist)
    ensures forall i {:trigger Items(t)[i]} | 0 <= i < |Items(t)| && Items(t)[i].0 == k ::
      r == Success(if i + 1 < |Items(t)| then Some(Items(t)[i + 1].1) else None)
  {
    var found := FindPath(lt, t, k);
    if found.None? {
      KeysOfItems(t);
      return Failure(KeyDoesNotExist);
    }
    ghost var i := FoundIndex(lt, t, k, found.value);
    var v := NextOf(t, found.value);
    return Success(v);
  }

  /** The node at `p` holds `k`, so `k` sits at one in-order index only: the
      node's. */
  lemma FoundIndex<K(!new), V>(lt: (K, K) -> bool, t: Tree<K, V>, k: K, p: seq<Dir>) returns (i: int)
    requires StrictTotalOrder(lt) && Bst(lt, t) && At(t, p).Node? && At(t, p).key == k
    ensures i == Off(t, p) + |Items(At(t, p).left)| && 0 <= i < |Items(t)| && Items(t)[i].0 == k
    ensures forall j {:trigger Items(t)[j]} | 0 <= j < |Items(t)| && Items(t)[j].0 == k :: j == i
  {
    NodeIndex(t, p);
    KeyIndexUnique(lt, t);
    i := Off(t, p) + |Items(At(t, p).left)|;
  }

  /** The in-order successor of the node at `p`. */
  method NextOf<K, V>(t: Tree<K, V>, p: seq<Dir>) returns (r: Option<V>)
    requires At(t, p).Node?
    ensures var i := Off(t, p) + |Items(At(t, p).left)|;
      r == if i + 1 < |Items(t)| then Some(Items(t)[i + 1].1) else None
  {
    var node := At(t, p);
    NodeIndex(t, p);
    assert Items(node) == Items(node.left) + [(node.key, node.value)] + Items(node.right);
    if node.right.Node? {
      OffSnoc(t, p, GoRight);
      var v := LeftmostValue(t, p + [GoRight]);
      return Some(v);
    }
    r := ClimbToNext(t, p);
  }

  /** `findPrevious`: the mirror image of `FindNext`. */
  method FindPrevious<K(!new), V>(lt: (K, K) -> bool, t: Tree<K, V>, k: K) returns (r: Result<Option<V>>)
    requires StrictTotalOrder(lt) && Bst(lt, t)
    ensures r.Failure? <==> k !in Keys(t)
    ensures r.Failure? ==> r == Failure(KeyDoesNotExist)
    ensures forall i {:trigger Items(t)[i]} | 0 <= i < |Items(t)| && Items(t)[i].0 == k ::
      r == Success(if i > 0 then Some(Items(t)[i - 1].1) else None)
  {
    var found := FindPath(lt, t, k);
    if found.None? {
      KeysOfItems(t);
      return Failure(KeyDoesNotExist);
    }
    ghost var i := FoundIndex(lt, t, k, found.value);
    var v := PreviousOf(t, found.value);
    return Success(v);
  }

  /** The in-order predecessor of the node at `p`. */
  method PreviousOf<K, V>(t: Tree<K, V>, p: seq<Dir>) returns (r: Option<V>)
    requires At(t, p).Node?
    ensures var i := Off(t, p) + |Items(At(t, p).left)|;
      i < |Items(t)| && r == if i > 0 then Some(Items(t)[i - 1].1) else None
  {
    var node := At(t, p);
    NodeIndex(t, p);
    if node.left.Node? {
      OffSnoc(t, p, GoLeft);
      var v := RightmostValue(t, p + [GoLeft]);
      return Some(v);
    }
    r := ClimbToPrevious(t, p);
  }

  // ------------------------------------------------------------------
  // findParentNode / findEqOrGreater
  // ------------------------------------------------------------------

  /** `findParentNode`: descend towards `k` and stop at the node whose missing
      child is where `k` would hang; None when a key equal to `k` is met. */
  function FindParentPath<K(!new), V>(lt: (K, K) -> bool, t: Tree<K, V>, k: K): (r: Option<seq<Dir>>)
    requires StrictTotalOrder(lt) && Bst(lt, t) && t.Node?
    ensures r.None? <==> k in Keys(t)
    ensures r.Some? ==> At(t, r.value).Node?
    ensures r.Some? ==>
      || (lt(k, At(t, r.value).key) && At(t, r.value).left.Leaf?)
      || (lt(At(t, r.value).key, k) && At(t, r.value).right.Leaf?)
  {
    if lt(k, t.key) then
      if t.left.Leaf? then Some([])
      else
        match FindParentPath(lt, t.left, k)
        case None => None
        case Some(p) =>
          assert ([GoLeft] + p)[1..] == p;
          Some([GoLeft] + p)
    else if lt(t.key, k) then
      if t.right.Leaf? then Some([])
      else
        match FindParentPath(lt, t.right, k)
        case None => None
        case Some(p) =>
          assert ([GoRight] + p)[1..] == p;
          Some([GoRight] + p)
    else
      None
  }

  /** Every key before the subtree `findParentNode` stops at is smaller than
      `k`, and every key after it larger: `k` belongs inside that window. */
  lemma {:induction false} FindParentWindow<K(!new), V>(lt: (K, K) -> bool, t: Tree<K, V>, k: K)
    requires StrictTotalOrder(lt) && Bst(lt, t) && t.Node?
    requires FindParentPath(lt, t, k).Some?
    ensures ParentWindow(lt, t, k, FindParentPath(lt, t, k).value)
  {
    var q := FindParentPath(lt, t, k).value;
    if lt(k, t.key) && t.left.Node? {
      var q' := FindParentPath(lt, t.left, k).value;
      FindParentWindow(lt, t.left, k);
      assert q == [GoLeft] + q';
      WindowStep(lt, t, k, GoLeft, q');
    } else if lt(t.key, k) && t.right.Node? {
      var q' := FindParentPath(lt, t.right, k).value;
      FindParentWindow(lt, t.right, k);
      assert q == [GoRight] + q';
      WindowStep(lt, t, k, GoRight, q');
    } else {
      assert q == [];
    }
  }

  /** The subtree at `q` is a window of the in-order sequence with every
      key before it smaller than `k` and every key after it larger. */
  ghost predicate ParentWindow<K, V>(lt: (K, K) -> bool, t: Tree<K, V>, k: K, q: seq<Dir>) {
    && Off(t, q) + |Items(At(t, q))| <= |Items(t)|
    && (forall j | 0 <= j < Off(t, q) :: lt(Items(t)[j].0, k))
    && (forall j | Off(t, q) + |Items(At(t, q))| <= j < |Items(t)| :: lt(k, Items(t)[j].0))
  }

  /** The window property lifts from a child, on the side of `k`, to its
      parent. */
  lemma WindowStep<K(!new), V>(lt: (K, K) -> bool, t: Tree<K, V>, k: K, d: Dir, q': seq<Dir>)
    requires StrictTotalOrder(lt) && Bst(lt, t) && t.Node?
    requires if d == GoLeft then lt(k, t.key) else lt(t.key, k)
    requires ParentWindow(lt, if d == GoLeft then t.left else t.right, k, q')
    ensures ParentWindow(lt, t, k, [d] + q')
  {
    var L, R := Items(t.left), Items(t.right);
    var n := |L|;
    var q := [d] + q';
    assert q[1..] == q';
    assert Items(t) == L + [(t.key, t.value)] + R;
    KeysOfItems(t.left);
    KeysOfItems(t.right);
    if d == GoLeft {
      forall j | Off(t, q) + |Items(At(t, q))| <= j < |Items(t)|
        ensures lt(k, Items(t)[j].0)
      {
        if j > n {
          assert Items(t)[j] == R[j - n - 1];
          assert R[j - n - 1].0 in Keys(t.right);
        }
      }
    } else {
      forall j | 0 <= j < Off(t, q)
        ensures lt(Items(t)[j].0, k)
      {
        if j < n {
          assert Items(t)[j] == L[j];
          assert L[j].0 in Keys(t.left);
        } else if j > n {
          assert Items(t)[j] == R[j - n - 1];
        }
      }
    }
  }

  /** The index of the first item whose key is not smaller than `k`. */
  ghost function LowerBound<K, V>(lt: (K, K) -> bool, items: seq<(K, V)>, k: K): (b: nat)
    ensures b <= |items|
  {
    if |items| == 0 || !lt(items[0].0, k) then 0 else 1 + LowerBound(lt, items[1..], k)
  }

  lemma {:induction false} LowerBoundAt<K, V>(lt: (K, K) -> bool, items: seq<(K, V)>, k: K, b: nat)
    requires b <= |items|
    requires forall j | 0 <= j < b :: lt(items[j].0, k)
    requires b < |items| ==> !lt(items[b].0, k)
    ensures LowerBound(lt, items, k) == b
  {
    if b > 0 {
      LowerBoundAt(lt, items[1..], k, b - 1);
    }
  }

  lemma NodeKeyIn<K, V>(t: Tree<K, V>, q: seq<Dir>)
    requires At(t, q).Node?
    ensures At(t, q).key in Keys(t)
  {
    NodeIndex(t, q);
    KeysOfItems(t);
  }

  /** A present key is its own lower bound. */
  lemma LowerBoundExact<K(!new), V>(lt: (K, K) -> bool, t: Tree<K, V>, k: K)
    requires StrictTotalOrder(lt) && Bst(lt, t) && k in Map(t)
    ensures LowerBound(lt, Items(t), k) < |Items(t)|
    ensures Items(t)[LowerBound(lt, Items(t), k)] == (k, Map(t)[k])
  {
    BstSorted(lt, t);
    KeysOfItems(t);
    KeysOfMap(t);
    MapOfBst(lt, t);
    var i :| 0 <= i < |Items(t)| && Items(t)[i].0 == k;
    LowerBoundAt(lt, Items(t), k, i);
  }

  /** When `k` is absent, its lower bound is the node `findParentNode` stops at
      if `k` is smaller than that node's key, and the item after it otherwise. */
  lemma LowerBoundAtParent<K(!new), V>(lt: (K, K) -> bool, t: Tree<K, V>, k: K)
    requires StrictTotalOrder(lt) && Bst(lt, t) && t.Node?
    requires FindParentPath(lt, t, k).Some?
    ensures var q := FindParentPath(lt, t, k).value;
      var i := Off(t, q) + |Items(At(t, q).left)|;
      && i < |Items(t)| && Items(t)[i] == (At(t, q).key, At(t, q).value)
      && LowerBound(lt, Items(t), k) == if lt(k, At(t, q).key) then i else i + 1
  {
    var q := FindParentPath(lt, t, k).value;
    FindParentWindow(lt, t, k);
    NodeIndex(t, q);
    if lt(k, At(t, q).key) {
      LowerBoundBelowNode(lt, t, k, q);
    } else {
      LowerBoundAboveNode(lt, t, k, q);
    }
  }

  /** `k` hangs as the missing left child of the node at `q`: its lower
      bound is that node. */
  lemma LowerBoundBelowNode<K(!new), V>(lt: (K, K) -> bool, t: Tree<K, V>, k: K, q: seq<Dir>)
    requires StrictTotalOrder(lt) && At(t, q).Node? && ParentWindow(lt, t, k, q)
    requires lt(k, At(t, q).key) && At(t, q).left.Leaf?
    ensures LowerBound(lt, Items(t), k) == Off(t, q) + |Items(At(t, q).left)|
  {
    NodeIndex(t, q);
    LowerBoundAt(lt, Items(t), k, Off(t, q));
  }

  /** `k` hangs as the missing right child of the node at `q`: its lower
      bound is the item just after that node. */
  lemma LowerBoundAboveNode<K(!new), V>(lt: (K, K) -> bool, t: Tree<K, V>, k: K, q: seq<Dir>)
    requires StrictTotalOrder(lt) && Bst(lt, t) && At(t, q).Node? && ParentWindow(lt, t, k, q)
    requires lt(At(t, q).key, k) && At(t, q).right.Leaf?
    ensures LowerBound(lt, Items(t), k) == Off(t, q) + |Items(At(t, q).left)| + 1
  {
    var pn := At(t, q);
    var o := Off(t, q);
    var i := o + |Items(pn.left)|;
    NodeIndex(t, q);
    assert Items(pn) == Items(pn.left) + [(pn.key, pn.value)];
    BstSorted(lt, t);
    forall j | 0 <= j < i + 1
      ensures lt(Items(t)[j].0, k)
    {
      if o <= j < i {
        assert lt(Items(t)[j].0, Items(t)[i].0);
      }
    }
    LowerBoundAt(lt, Items(t), k, i + 1);
  }

  /** `findEqOrGreater`: None on an empty tree, the exact match when present,
      otherwise the value of the smallest larger key (or None). */
  method FindEqOrGreater<K(!new), V>(lt: (K, K) -> bool, t: Tree<K, V>, k: K) returns (r: Option<V>)
    requires StrictTotalOrder(lt) && Bst(lt, t)
    ensures var b := LowerBound(lt, Items(t), k);
      r == if b < |Items(t)| then Some(Items(t)[b].1) else None
  {
    if t.Leaf? {
      return None;
    }
    var exact := Find(lt, t, k);
    if exact.Some? {
      LowerBoundExact(lt, t, k);
      return exact;
    }
    var q := FindParentPath(lt, t, k).value;
    var pn := At(t, q);
    LowerBoundAtParent(lt, t, k);
    if lt(k, pn.key) {
      return Some(pn.value);
    }
    NodeKeyIn(t, q);
    ghost var i := Off(t, q) + |Items(pn.left)|;
    assert Items(t)[i].0 == pn.key;
    var next := FindNext(lt, t, pn.key);
    return next.value;
  }

  // ------------------------------------------------------------------
  // findMax / arrayInOrder / select
  // ------------------------------------------------------------------

  /** `findMax`: follow right children from the root; the value of the last
      in-order item, or None on an empty tree. */
  method FindMax<K, V>(t: Tree<K, V>) returns (r: Option<V>)
    ensures r == if |Items(t)| == 0 then None else Some(Items(t)[|Items(t)| - 1].1)
  {
    if t.Leaf? {
      return None;
    }
    var v := RightmostValue(t, []);
    return Some(v);
  }

  /** `arrayInOrderRecursive`: write the subtree's values in order into `out`
      starting at `offset`, and return the index after the last one written. */
  function ArrayInOrderRec<K, V>(t: Tree<K, V>, out: seq<V>, offset: nat): (r: (seq<V>, nat))
    requires offset + |Items(t)| <= |out|
    ensures r.1 == offset + |Items(t)| && |r.0| == |out|
    ensures r.0[..offset] == out[..offset] && r.0[r.1..] == out[r.1..]
    ensures r.0[offset..r.1] == Values(Items(t))
  {
    match t
    case Leaf => (out, offset)
    case Node(l, k, v, rr, _, _) =>
      assert Items(t) == Items(l) + [(k, v)] + Items(rr);
      var (o1, n1) := ArrayInOrderRec(l, out, offset);
      var o2 := o1[n1 := v];
      var (o3, n3) := ArrayInOrderRec(rr, o2, n1 + 1);
      WriteWindow(o1, o3, offset, n1, n3, v);
      ValuesOfNode(t);
      (o3, n3)
  }

  /** Writing `v` at `n1` just after a window, then a window after it,
      leaves the three side by side. */
  lemma WriteWindow<V>(o1: seq<V>, o3: seq<V>, offset: nat, n1: nat, n3: nat, v: V)
    requires offset <= n1 < n3 <= |o1| == |o3|
    requires o3[..n1 + 1] == o1[n1 := v][..n1 + 1]
    ensures o3[offset..n3] == o1[offset..n1] + [v] + o3[n1 + 1..n3]
  {
    forall j | offset <= j < n3
      ensures o3[j] == (o1[offset..n1] + [v] + o3[n1 + 1..n3])[j - offset]
    {
      if j <= n1 {
        assert o3[j] == o3[..n1 + 1][j];
      }
    }
  }

  /** The values of a node: its left subtree's, its own, its right subtree's. */
  lemma ValuesOfNode<K, V>(t: Tree<K, V>)
    requires t.Node?
    ensures Values(Items(t)) == Values(Items(t.left)) + [t.value] + Values(Items(t.right))
  {
    assert Items(t) == Items(t.left) + [(t.key, t.value)] + Items(t.right);
  }

  /** `arrayInOrder`: the tree's values in increasing key order at the front of `out`. */
  function ArrayInOrder<K, V>(t: Tree<K, V>, out: seq<V>): (r: seq<V>)
    requires |Items(t)| <= |out|
    ensures |r| == |out| && r[..|Items(t)|] == Values(Items(t)) && r[|Items(t)|..] == out[|Items(t)|..]
  {
    ArrayInOrderRec(t, out, 0).0
  }

  /** `selectRecursive`: the value with the `k`-th smallest key (0-indexed),
      steering by the cached subtree sizes; None when `k` is out of range. */
  function Select<K, V>(t: Tree<K, V>, k: int): (r: Option<V>)
    ensures SizesOk(t) ==> r == if 0 <= k < |Items(t)| then Some(Items(t)[k].1) else None
  {
    match t
    case Leaf => None
    case Node(l, _, v, rr, _, _) =>
      var weight := if l.Leaf? then 0 else l.size;
      CachedSize(l);
      assert Items(t) == Items(l) + [(t.key, v)] + Items(rr);
      if weight > k then Select(l, k)
      else if weight < k then Select(rr, k - weight - 1)
      else Some(v)
  }
}
