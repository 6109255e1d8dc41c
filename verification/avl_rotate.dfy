/** The four rotations and `balance` of both trees (Wet1/AVLTree.h and
    Wet2/AVLTree.h). A rotation relinks parents in the source; here it rebuilds
    the subtree and returns its new root, recomputing the caches of the moved
    nodes in the same order as the source. */
module AvlRotate {
  import opened Orders
  import opened AvlNode

  /** `rotateLL`: the left child A becomes the root, the old root B its right
      child, and A's right subtree moves under B. */
  function RotateLL<K, V>(b: Tree<K, V>): (a: Tree<K, V>)
    requires b.Node? && b.left.Node?
    ensures a.Node? && Items(a) == Items(b)
  {
    var A := b.left;
    var B := Refresh(b.(left := A.right));
    assert Items(B) == Items(A.right) + [(b.key, b.value)] + Items(b.right);
    Refresh(A.(right := B))
  }

  /** `rotateRR`: the mirror image of `RotateLL`. */
  function RotateRR<K, V>(b: Tree<K, V>): (a: Tree<K, V>)
    requires b.Node? && b.right.Node?
    ensures a.Node? && Items(a) == Items(b)
  {
    var A := b.right;
    var B := Refresh(b.(right := A.left));
    assert Items(B) == Items(b.left) + [(b.key, b.value)] + Items(A.left);
    Refresh(A.(left := B))
  }

  /** `rotateLR`: the right child B of the left child A becomes the root, with A
      on its left and the old root C on its right; A, then C, then B are refreshed. */
  function RotateLR<K, V>(c: Tree<K, V>): (r: Tree<K, V>)
    requires c.Node? && c.left.Node? && c.left.right.Node?
    ensures r.Node? && Items(r) == Items(c)
  {
    var A := c.left;
    var B := A.right;
    var A' := Refresh(A.(right := B.left));
    var C' := Refresh(c.(left := B.right));
    assert Items(A') == Items(A.left) + [(A.key, A.value)] + Items(B.left);
    assert Items(C') == Items(B.right) + [(c.key, c.value)] + Items(c.right);
    assert Items(B) == Items(B.left) + [(B.key, B.value)] + Items(B.right);
    assert Items(A) == Items(A.left) + [(A.key, A.value)] + Items(B);
    assert Items(c) == Items(A.left) + [(A.key, A.value)] + (Items(B.left) + [(B.key, B.value)] + Items(B.right))
      + [(c.key, c.value)] + Items(c.right);
    Refresh(B.(left := A', right := C'))
  }

  /** `rotateRL`: the mirror image of `RotateLR`. */
  function RotateRL<K, V>(c: Tree<K, V>): (r: Tree<K, V>)
    requires c.Node? && c.right.Node? && c.right.left.Node?
    ensures r.Node? && Items(r) == Items(c)
  {
    var A := c.right;
    var B := A.left;
    var A' := Refresh(A.(left := B.right));
    var C' := Refresh(c.(right := B.left));
    assert Items(A') == Items(B.right) + [(A.key, A.value)] + Items(A.right);
    assert Items(C') == Items(c.left) + [(c.key, c.value)] + Items(B.left);
    assert Items(B) == Items(B.left) + [(B.key, B.value)] + Items(B.right);
    assert Items(A) == Items(B) + [(A.key, A.value)] + Items(A.right);
    assert Items(c) == Items(c.left) + [(c.key, c.value)]
      + ((Items(B.left) + [(B.key, B.value)] + Items(B.right)) + [(A.key, A.value)] + Items(A.right));
    Refresh(B.(left := C', right := A'))
  }

  /** `balance`: rotates exactly when the cached balance factor is 2 or -2,
      choosing the double rotation when the heavy child leans the other way;
      reports whether it rotated. The in-order sequence never changes. */
  function Balance<K, V>(n: Tree<K, V>): (r: (Tree<K, V>, bool))
    requires n.Node?
    ensures r.0.Node? && Items(r.0) == Items(n)
    ensures r.1 <==> (BalanceFactor(n) == 2 || BalanceFactor(n) == -2)
    ensures !r.1 ==> r.0 == n
  {
    if BalanceFactor(n) == 2 then
      (if BalanceFactor(n.left) == -1 then RotateLR(n) else RotateLL(n), true)
    else if BalanceFactor(n) == -2 then
      (if BalanceFactor(n.right) == 1 then RotateRL(n) else RotateRR(n), true)
    else
      (n, false)
  }

  /** A node whose caches are right and whose children are AVL trees differing
      in height by at most two: what `balance` is called on. */
  ghost predicate Balanceable<K, V>(n: Tree<K, V>) {
    && n.Node?
    && HeightsOk(n) && SizesOk(n)
    && Balanced(n.left) && Balanced(n.right)
    && -2 <= Ht(n.left) - Ht(n.right) <= 2
  }

  lemma RotateLLHeight<K, V>(b: Tree<K, V>)
    requires Balanceable(b) && b.left.Node?
    requires Ht(b.left) == Ht(b.right) + 2 && Ht(b.left.left) >= Ht(b.left.right)
    ensures AvlOk(RotateLL(b))
    ensures Ht(RotateLL(b)) == if Ht(b.left.left) == Ht(b.left.right) then Ht(b) else Ht(b) - 1
  {
    var A := b.left;
    assert HeightsOk(A) && SizesOk(A) && Balanced(A);
    assert HeightsOk(b.right) && SizesOk(b.right);
    var B := Refresh(b.(left := A.right));
    assert HeightsOk(B) && SizesOk(B) && Balanced(B);
  }

  lemma RotateRRHeight<K, V>(b: Tree<K, V>)
    requires Balanceable(b) && b.right.Node?
    requires Ht(b.right) == Ht(b.left) + 2 && Ht(b.right.right) >= Ht(b.right.left)
    ensures AvlOk(RotateRR(b))
    ensures Ht(RotateRR(b)) == if Ht(b.right.right) == Ht(b.right.left) then Ht(b) else Ht(b) - 1
  {
    var A := b.right;
    assert HeightsOk(A) && SizesOk(A) && Balanced(A);
    assert HeightsOk(b.left) && SizesOk(b.left);
    var B := Refresh(b.(right := A.left));
    assert HeightsOk(B) && SizesOk(B) && Balanced(B);
  }

  lemma RotateLRHeight<K, V>(c: Tree<K, V>)
    requires Balanceable(c) && c.left.Node? && c.left.right.Node?
    requires Ht(c.left) == Ht(c.right) + 2 && Ht(c.left.right) == Ht(c.left.left) + 1
    ensures AvlOk(RotateLR(c)) && Ht(RotateLR(c)) == Ht(c) - 1
  {
    var A := c.left;
    var B := A.right;
    assert HeightsOk(A) && SizesOk(A) && Balanced(A);
    assert HeightsOk(B) && SizesOk(B) && Balanced(B);
    assert HeightsOk(c.right) && SizesOk(c.right);
    var A' := Refresh(A.(right := B.left));
    var C' := Refresh(c.(left := B.right));
    assert HeightsOk(A') && SizesOk(A') && Balanced(A');
    assert HeightsOk(C') && SizesOk(C') && Balanced(C');
  }

  lemma RotateRLHeight<K, V>(c: Tree<K, V>)
    requires Balanceable(c) && c.right.Node? && c.right.left.Node?
    requires Ht(c.right) == Ht(c.left) + 2 && Ht(c.right.left) == Ht(c.right.right) + 1
    ensures AvlOk(RotateRL(c)) && Ht(RotateRL(c)) == Ht(c) - 1
  {
    var A := c.right;
    var B := A.left;
    assert HeightsOk(A) && SizesOk(A) && Balanced(A);
    assert HeightsOk(B) && SizesOk(B) && Balanced(B);
    assert HeightsOk(c.left) && SizesOk(c.left);
    var A' := Refresh(A.(left := B.right));
    var C' := Refresh(c.(right := B.left));
    assert HeightsOk(A') && SizesOk(A') && Balanced(A');
    assert HeightsOk(C') && SizesOk(C') && Balanced(C');
  }

  /** `balance` restores the AVL invariant on a node whose children differ by at
      most two, and it lowers the subtree by one unless the heavy child was
      itself level (which only happens after a removal). */
  lemma {:induction false} BalanceOk<K, V>(n: Tree<K, V>)
    requires Balanceable(n)
    ensures AvlOk(Balance(n).0)
    ensures !Balance(n).1 ==> Ht(Balance(n).0) == Ht(n)
    ensures Balance(n).1 ==> Ht(Balance(n).0) == Ht(n) - 1 || Ht(Balance(n).0) == Ht(n)
    ensures Balance(n).1 && Ht(n.left) > Ht(n.right) && Ht(n.left.left) != Ht(n.left.right)
      ==> Ht(Balance(n).0) == Ht(n) - 1
    ensures Balance(n).1 && Ht(n.left) < Ht(n.right) && Ht(n.right.left) != Ht(n.right.right)
      ==> Ht(Balance(n).0) == Ht(n) - 1
  {
    CachedHeight(n.left);
    CachedHeight(n.right);
    if BalanceFactor(n) == 2 {
      CachedHeight(n.left.left);
      CachedHeight(n.left.right);
      if BalanceFactor(n.left) == -1 {
        RotateLRHeight(n);
      } else {
        RotateLLHeight(n);
      }
    } else if BalanceFactor(n) == -2 {
      CachedHeight(n.right.left);
      CachedHeight(n.right.right);
      if BalanceFactor(n.right) == 1 {
        RotateRLHeight(n);
      } else {
        RotateRRHeight(n);
      }
    }
  }

  /** After a rotation the new root's caches are already right and it needs no
      further rotation: revisiting it (as the removal retrace does) changes nothing. */
  lemma {:induction false} BalanceSettles<K, V>(n: Tree<K, V>)
    requires Balanceable(n)
    ensures Refresh(Balance(n).0) == Balance(n).0
    ensures !Balance(Balance(n).0).1
  {
    BalanceOk(n);
    var m := Balance(n).0;
    CachedHeight(m.left);
    CachedHeight(m.right);
    CachedSize(m.left);
    CachedSize(m.right);
  }

  /** Rotations keep the search-tree order and the abstract map. */
  lemma BalanceKeepsOrder<K(!new), V>(lt: (K, K) -> bool, n: Tree<K, V>)
    requires StrictTotalOrder(lt) && n.Node?
    ensures Bst(lt, Balance(n).0) <==> Bst(lt, n)
    ensures Map(Balance(n).0) == Map(n) && Keys(Balance(n).0) == Keys(n)
  {
    BstIffSorted(lt, n);
    BstIffSorted(lt, Balance(n).0);
    KeysOfMap(n);
    KeysOfMap(Balance(n).0);
  }

  /** Every rotation recomputes `nodesInSub` of the nodes it moves, so the
      size caches stay right whatever the heights are. */
  lemma BalanceKeepsSizes<K, V>(n: Tree<K, V>)
    requires n.Node? && SizesOk(n)
    ensures SizesOk(Balance(n).0)
  {
    assert SizesOk(n.left) && SizesOk(n.right);
    if n.left.Node? {
      assert SizesOk(n.left.left) && SizesOk(n.left.right);
      if n.left.right.Node? {
        assert SizesOk(n.left.right.left) && SizesOk(n.left.right.right);
      }
    }
    if n.right.Node? {
      assert SizesOk(n.right.left) && SizesOk(n.right.right);
      if n.right.left.Node? {
        assert SizesOk(n.right.left.left) && SizesOk(n.right.left.right);
      }
    }
  }
}
