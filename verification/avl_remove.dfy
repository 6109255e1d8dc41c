/** `remove` of both trees (Wet1/AVLTree.h, Wet2/AVLTree.h): `removeBin`
    unlinks the node (a node with two children first swaps its payload with
    its in-order successor, the leftmost node of its right subtree, which is
    then unlinked instead), and `balanceRemove` retraces from the unlinked
    node's parent. As for insertion, the retrace runs as the recursion unwinds.

    `balanceRemove` stops at the first node whose height did not change, but
    after a rotation it stops at the latest at the new subtree root, even when
    the rotation made the subtree one lower: the ancestors above keep a cached
    height one too large. `AsWritten` follows the source; `Corrected` keeps
    climbing while the subtree height changed. */
module AvlRemove {
  import opened Wrappers
  import opened Orders
  import opened AvlNode
  import opened AvlRotate
  import opened AvlQuery

  datatype Retrace = AsWritten | Corrected

  /** One iteration of `balanceRemove` at `n`, whose child subtree was just
      rebuilt; `going` says whether the loop reached `n`. A node the loop does
      not reach still gets its `nodesInSub` refreshed by the trailing loop. */
  function RetraceRemove<K, V>(n: Tree<K, V>, going: bool, mode: Retrace): (r: (Tree<K, V>, bool))
    requires n.Node?
    ensures r.0.Node? && Items(r.0) == Items(n)
    ensures !going ==> r == (UpdateRank(n), false)
  {
    if !going then (UpdateRank(n), false)
    else
      var previousHeight := n.height;
      var (m, rotated) := Balance(Refresh(n));
      if mode == AsWritten then (m, !rotated && previousHeight != m.height)
      else (m, previousHeight != m.height)
  }

  /** The successor search of `removeBin`: unlink the leftmost node of a
      non-empty subtree, returning its payload for the swap. */
  function RemoveMin<K, V>(t: Tree<K, V>, mode: Retrace): (r: (Tree<K, V>, K, V, bool))
    requires t.Node?
    ensures Items(t) == [(r.1, r.2)] + Items(r.0)
  {
    if t.left.Leaf? then
      (t.right, t.key, t.value, true)
    else
      var (l', mk, mv, going) := RemoveMin(t.left, mode);
      var (n, g) := RetraceRemove(t.(left := l'), going, mode);
      (n, mk, mv, g)
  }

  /** `removeBin` plus the retrace. A node without children is replaced by
      nothing, one with a single child by that child; a node with two children
      takes its successor's key and value, and the successor is unlinked. At
      most one pair leaves the subtree; which one is `RemoveRecOrder`. */
  function RemoveRec<K, V>(lt: (K, K) -> bool, t: Tree<K, V>, k: K, mode: Retrace): (r: (Tree<K, V>, bool))
    ensures t.Leaf? ==> r == (Leaf, false)
    ensures |Items(t)| - 1 <= |Items(r.0)| <= |Items(t)|
  {
    match t
    case Leaf => (Leaf, false)
    case Node(l, kk, vv, rr, h, s) =>
      if lt(k, kk) then
        var (l', going) := RemoveRec(lt, l, k, mode);
        RetraceRemove(t.(left := l'), going, mode)
      else if lt(kk, k) then
        var (r', going) := RemoveRec(lt, rr, k, mode);
        RetraceRemove(t.(right := r'), going, mode)
      else if l.Leaf? && rr.Leaf? then (Leaf, true)
      else if rr.Leaf? then (l, true)
      else if l.Leaf? then (rr, true)
      else
        var (r', mk, mv, going) := RemoveMin(rr, mode);
        RetraceRemove(Node(l, mk, mv, r', h, s), going, mode)
  }

  /** `remove` with the corrected retrace: `KeyDoesNotExist` when the key is
      absent; otherwise exactly that key leaves the map and the tree stays a
      valid AVL tree. */
  function Remove<K(!new), V>(lt: (K, K) -> bool, t: Tree<K, V>, k: K): (r: Result<Tree<K, V>>)
    requires StrictTotalOrder(lt) && Valid(lt, t)
    ensures r.Failure? <==> k !in Map(t)
    ensures r.Failure? ==> r.error == KeyDoesNotExist
    ensures r.Success? ==> Valid(lt, r.value) && Map(r.value) == Map(t) - {k}
  {
    KeysOfMap(t);
    if FindPath(lt, t, k).None? then Failure(KeyDoesNotExist)
    else
      RemoveRecOrder(lt, t, k, Corrected);
      RemoveRecAvl(lt, t, k);
      Success(RemoveRec(lt, t, k, Corrected).0)
  }

  /** `remove` as written: the order, the map and the size caches come out
      right, but cached heights above a rotation may be stale. */
  function RemoveAsWritten<K(!new), V>(lt: (K, K) -> bool, t: Tree<K, V>, k: K): (r: Result<Tree<K, V>>)
    requires StrictTotalOrder(lt) && Valid(lt, t)
    ensures r.Failure? <==> k !in Map(t)
    ensures r.Failure? ==> r.error == KeyDoesNotExist
    ensures r.Success? ==> Bst(lt, r.value) && SizesOk(r.value) && Map(r.value) == Map(t) - {k}
  {
    KeysOfMap(t);
    if FindPath(lt, t, k).None? then Failure(KeyDoesNotExist)
    else
      RemoveRecOrder(lt, t, k, AsWritten);
      RemoveRecSizes(lt, t, k, AsWritten);
      Success(RemoveRec(lt, t, k, AsWritten).0)
  }

  // ------------------------------------------------------------------
  // Order and map
  // ------------------------------------------------------------------

  /** The successor unlinked from a search tree is smaller than every key
      left behind, and what remains is a search tree. */
  lemma RemoveMinSorted<K(!new), V>(lt: (K, K) -> bool, t: Tree<K, V>, mode: Retrace)
    requires StrictTotalOrder(lt) && Bst(lt, t) && t.Node?
    ensures var r := RemoveMin(t, mode);
      && Bst(lt, r.0)
      && (forall x | x in Keys(r.0) :: lt(r.1, x))
  {
    var r := RemoveMin(t, mode);
    BstSorted(lt, t);
    SortedTail(lt, Items(t));
    assert Items(r.0) == Items(t)[1..];
    SortedBst(lt, r.0);
    KeysOfItems(r.0);
    forall x | x in Keys(r.0)
      ensures lt(r.1, x)
    {
      var j :| 0 <= j < |Items(r.0)| && Items(r.0)[j].0 == x;
    }
  }

  /** The successor unlinked from a search tree is its smallest key, and what
      remains maps every other key as before. */
  lemma RemoveMinOrder<K(!new), V>(lt: (K, K) -> bool, t: Tree<K, V>, mode: Retrace)
    requires StrictTotalOrder(lt) && Bst(lt, t) && t.Node?
    ensures var (t', mk, mv, _) := RemoveMin(t, mode);
      && Bst(lt, t')
      && mk in Keys(t) && Keys(t') == Keys(t) - {mk}
      && (forall x | x in Keys(t') :: lt(mk, x))
      && Map(t) == Map(t')[mk := mv]
  {
    var (t', mk, mv, _) := RemoveMin(t, mode);
    RemoveMinSorted(lt, t, mode);
    var s := Items(t);
    assert s[1..] == Items(t');
    assert Map(t) == Map(t')[mk := mv];
    KeysOfMap(t);
    KeysOfMap(t');
  }

  lemma MapChildRemove<K, V>(t: Tree<K, V>, c: Tree<K, V>, onLeft: bool, k: K)
    requires t.Node? && k != t.key
    requires onLeft ==> Map(c) == Map(t.left) - {k} && k !in Map(t.right)
    requires !onLeft ==> Map(c) == Map(t.right) - {k} && k !in Map(t.left)
    ensures Map(if onLeft then t.(left := c) else t.(right := c)) == Map(t) - {k}
  {
    MapNode(t);
    if onLeft {
      MapNode(t.(left := c));
    } else {
      MapNode(t.(right := c));
    }
  }

  /** Removing the root's payload from a node with two children by moving in
      the successor. */
  lemma MapSuccessorSwap<K, V>(t: Tree<K, V>, r': Tree<K, V>, mk: K, mv: V)
    requires t.Node? && t.key !in Map(t.left) && t.key !in Map(t.right)
    requires Map(t.right) == Map(r')[mk := mv]
    ensures Map(Node(t.left, mk, mv, r', t.height, t.size)) == Map(t) - {t.key}
  {
    MapNode(t);
    MapNode(Node(t.left, mk, mv, r', t.height, t.size));
  }

  /** The retrace after removing `k` from one child of a search tree. */
  lemma RemoveStepOrder<K(!new), V>(lt: (K, K) -> bool, t: Tree<K, V>, c: Tree<K, V>, onLeft: bool,
                                    k: K, going: bool, mode: Retrace)
    requires StrictTotalOrder(lt) && Bst(lt, t) && t.Node?
    requires if onLeft then lt(k, t.key) else lt(t.key, k)
    requires Bst(lt, c)
    requires Map(c) == Map(if onLeft then t.left else t.right) - {k}
    requires Keys(c) == Keys(if onLeft then t.left else t.right) - {k}
    ensures var r := RetraceRemove(if onLeft then t.(left := c) else t.(right := c), going, mode);
      && Bst(lt, r.0)
      && Map(r.0) == Map(t) - {k}
      && Keys(r.0) == Keys(t) - {k}
  {
    var n0 := if onLeft then t.(left := c) else t.(right := c);
    KeysOfMap(t.left);
    KeysOfMap(t.right);
    assert Bst(lt, n0);
    MapChildRemove(t, c, onLeft, k);
    SameItems(lt, n0, RetraceRemove(n0, going, mode).0);
    KeysOfMap(n0);
    KeysOfMap(t);
  }

  /** The retrace after the successor swap at a node with two children. */
  lemma SwapStepOrder<K(!new), V>(lt: (K, K) -> bool, t: Tree<K, V>, mode: Retrace)
    requires StrictTotalOrder(lt) && Bst(lt, t) && t.Node? && t.left.Node? && t.right.Node?
    ensures var (r', mk, mv, going) := RemoveMin(t.right, mode);
      var r := RetraceRemove(Node(t.left, mk, mv, r', t.height, t.size), going, mode);
      && Bst(lt, r.0)
      && Map(r.0) == Map(t) - {t.key}
      && Keys(r.0) == Keys(t) - {t.key}
  {
    var (r', mk, mv, going) := RemoveMin(t.right, mode);
    RemoveMinOrder(lt, t.right, mode);
    var n0 := Node(t.left, mk, mv, r', t.height, t.size);
    assert Bst(lt, n0);
    KeysOfMap(t.left);
    KeysOfMap(t.right);
    MapSuccessorSwap(t, r', mk, mv);
    SameItems(lt, n0, RetraceRemove(n0, going, mode).0);
    KeysOfMap(n0);
    KeysOfMap(t);
  }

  /** Removal of a key from a search tree: the result is a search tree that
      maps every other key as before and no longer maps `k`. */
  lemma {:induction false} RemoveRecOrder<K(!new), V>(lt: (K, K) -> bool, t: Tree<K, V>, k: K, mode: Retrace)
    requires StrictTotalOrder(lt) && Bst(lt, t)
    ensures var r := RemoveRec(lt, t, k, mode);
      && Bst(lt, r.0)
      && Map(r.0) == Map(t) - {k}
      && Keys(r.0) == Keys(t) - {k}
  {
    match t
    case Leaf =>
    case Node(l, kk, vv, rr, h, s) =>
      if lt(k, kk) {
        RemoveRecOrder(lt, l, k, mode);
        RemoveStepOrder(lt, t, RemoveRec(lt, l, k, mode).0, true, k, RemoveRec(lt, l, k, mode).1, mode);
      } else if lt(kk, k) {
        RemoveRecOrder(lt, rr, k, mode);
        RemoveStepOrder(lt, t, RemoveRec(lt, rr, k, mode).0, false, k, RemoveRec(lt, rr, k, mode).1, mode);
      } else if l.Node? && rr.Node? {
        SwapStepOrder(lt, t, mode);
      } else {
        KeysOfMap(t);
        KeysOfMap(l);
        KeysOfMap(rr);
        MapNode(t);
      }
  }

  // ------------------------------------------------------------------
  // Caches and balance
  // ------------------------------------------------------------------

  lemma RetraceRemoveSizes<K, V>(n: Tree<K, V>, going: bool, mode: Retrace)
    requires n.Node? && SizesOk(n.left) && SizesOk(n.right)
    ensures SizesOk(RetraceRemove(n, going, mode).0)
  {
    if going {
      BalanceKeepsSizes(Refresh(n));
    }
  }

  /** `nodesInSub` stays right under either retrace: every node on the path
      gets `updateRank`, and rotations refresh the nodes they move. */
  lemma {:induction false} RemoveRecSizes<K, V>(lt: (K, K) -> bool, t: Tree<K, V>, k: K, mode: Retrace)
    requires SizesOk(t)
    ensures SizesOk(RemoveRec(lt, t, k, mode).0)
  {
    match t
    case Leaf =>
    case Node(l, kk, vv, rr, h, s) =>
      if lt(k, kk) {
        RemoveRecSizes(lt, l, k, mode);
        RetraceRemoveSizes(t.(left := RemoveRec(lt, l, k, mode).0), RemoveRec(lt, l, k, mode).1, mode);
      } else if lt(kk, k) {
        RemoveRecSizes(lt, rr, k, mode);
        RetraceRemoveSizes(t.(right := RemoveRec(lt, rr, k, mode).0), RemoveRec(lt, rr, k, mode).1, mode);
      } else if l.Node? && rr.Node? {
        var (r', mk, mv, going) := RemoveMin(rr, mode);
        RemoveMinSizes(rr, mode);
        RetraceRemoveSizes(Node(l, mk, mv, r', h, s), going, mode);
      }
  }

  lemma {:induction false} RemoveMinSizes<K, V>(t: Tree<K, V>, mode: Retrace)
    requires t.Node? && SizesOk(t)
    ensures SizesOk(RemoveMin(t, mode).0)
  {
    if t.left.Node? {
      RemoveMinSizes(t.left, mode);
      RetraceRemoveSizes(t.(left := RemoveMin(t.left, mode).0), RemoveMin(t.left, mode).3, mode);
    }
  }

  /** The corrected retrace step keeps the AVL invariant. `oldH` is the
      child's height before the removal; it shrank by one exactly when `going`
      holds. The result is one lower exactly when the loop continues. */
  lemma RetraceRemoveOk<K, V>(n: Tree<K, V>, onLeft: bool, oldH: int, going: bool)
    requires n.Node?
    requires var child := if onLeft then n.left else n.right;
      var other := if onLeft then n.right else n.left;
      && AvlOk(child) && AvlOk(other)
      && n.height == 1 + Max(oldH, Ht(other))
      && -1 <= oldH - Ht(other) <= 1
      && Ht(child) == (if going then oldH - 1 else oldH)
    ensures var other := if onLeft then n.right else n.left;
      var r := RetraceRemove(n, going, Corrected);
      && AvlOk(r.0)
      && Ht(r.0) == 1 + Max(oldH, Ht(other)) - (if r.1 then 1 else 0)
  {
    CachedHeight(n.left);
    CachedHeight(n.right);
    if going {
      var n1 := Refresh(n);
      assert Balanceable(n1);
      BalanceOk(n1);
      CachedHeight(Balance(n1).0);
    }
  }

  /** Unlinking the successor lowers the subtree by one exactly when the
      corrected retrace reports it. */
  lemma {:induction false} RemoveMinAvl<K, V>(t: Tree<K, V>)
    requires t.Node? && AvlOk(t)
    ensures var r := RemoveMin(t, Corrected);
      && AvlOk(r.0)
      && Ht(r.0) == Ht(t) - (if r.3 then 1 else 0)
  {
    CachedHeight(t);
    if t.left.Node? {
      var (l', mk, mv, going) := RemoveMin(t.left, Corrected);
      RemoveMinAvl(t.left);
      RetraceRemoveOk(t.(left := l'), true, Ht(t.left), going);
    }
  }

  /** With the corrected retrace, removal keeps the AVL invariant and lowers
      the tree by one exactly when the retrace is still going at the top. */
  lemma {:induction false} RemoveRecAvl<K, V>(lt: (K, K) -> bool, t: Tree<K, V>, k: K)
    requires AvlOk(t)
    ensures var r := RemoveRec(lt, t, k, Corrected);
      && AvlOk(r.0)
      && Ht(r.0) == Ht(t) - (if r.1 then 1 else 0)
  {
    match t
    case Leaf =>
    case Node(l, kk, vv, rr, h, s) =>
      CachedHeight(t);
      if lt(k, kk) {
        var (l', going) := RemoveRec(lt, l, k, Corrected);
        RemoveRecAvl(lt, l, k);
        RetraceRemoveOk(t.(left := l'), true, Ht(l), going);
      } else if lt(kk, k) {
        var (r', going) := RemoveRec(lt, rr, k, Corrected);
        RemoveRecAvl(lt, rr, k);
        RetraceRemoveOk(t.(right := r'), false, Ht(rr), going);
      } else if l.Node? && rr.Node? {
        var (r', mk, mv, going) := RemoveMin(rr, Corrected);
        RemoveMinAvl(rr);
        RetraceRemoveOk(Node(l, mk, mv, r', h, s), false, Ht(rr), going);
      }
  }
}
