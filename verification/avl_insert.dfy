/** `insert` of both trees (Wet1/AVLTree.h, Wet2/AVLTree.h): a plain search-tree
    insertion (`insertBin`, which also refreshes `nodesInSub` on the way back),
    followed by the `balanceInsert` retrace. The retrace walks up from the new
    node; here it runs as the recursion unwinds, carrying a flag that says
    whether the loop is still going. */
module AvlInsert {
  import opened Wrappers
  import opened Orders
  import opened AvlNode
  import opened AvlRotate
  import opened AvlQuery

  /** One iteration of `balanceInsert` with `n` as `parent` and `child` as
      `curNode`: stop if the parent is already tall enough; otherwise raise its
      cached height to one above the child's and balance it, stopping after a
      rotation. The flag says whether the loop goes on to `n`'s parent. */
  function RetraceInsert<K, V>(n: Tree<K, V>, child: Tree<K, V>, going: bool): (r: (Tree<K, V>, bool))
    requires n.Node?
    ensures r.0.Node? && Items(r.0) == Items(n)
    ensures !going ==> r == (n, false)
  {
    if !going || n.height >= H(child) + 1 then (n, false)
    else
      var (m, rotated) := Balance(n.(height := H(child) + 1));
      (m, !rotated)
  }

  /** `insertBin` plus the retrace: the new node is hung where the search for `k`
      falls off the tree. A key equal to `k` leaves the subtree as it is (the
      caller has already ruled that out). */
  function InsertRec<K, V>(lt: (K, K) -> bool, t: Tree<K, V>, k: K, v: V): (r: (Tree<K, V>, bool))
    ensures r.0.Node?
  {
    match t
    case Leaf => (NewNode(k, v), true)
    case Node(l, kk, _, rr, _, _) =>
      if lt(k, kk) then
        var (l', going) := InsertRec(lt, l, k, v);
        RetraceInsert(UpdateRank(t.(left := l')), l', going)
      else if lt(kk, k) then
        var (r', going) := InsertRec(lt, rr, k, v);
        RetraceInsert(UpdateRank(t.(right := r')), r', going)
      else
        (t, false)
  }

  /** `insert`: `KeyExists` when the key is present; otherwise the tree gains
      exactly the pair k→v and stays a valid AVL tree. */
  function Insert<K(!new), V>(lt: (K, K) -> bool, t: Tree<K, V>, k: K, v: V): (r: Result<Tree<K, V>>)
    requires StrictTotalOrder(lt) && Valid(lt, t)
    ensures r.Failure? <==> k in Map(t)
    ensures r.Failure? ==> r.error == KeyExists
    ensures r.Success? ==> Valid(lt, r.value) && Map(r.value) == Map(t)[k := v]
    ensures r.Success? ==> Ht(r.value) <= Ht(t) + 1
  {
    if Find(lt, t, k).Some? then Failure(KeyExists)
    else
      KeysOfMap(t);
      InsertRecOk(lt, t, k, v);
      Success(InsertRec(lt, t, k, v).0)
  }

  /** The retrace step keeps the AVL invariant. `oldH` is the child's height
      before the insertion; the child grew by one exactly when `going` holds,
      and a grown child that was not empty is not level. The result is one
      taller than before exactly when the loop continues, and then not level. */
  lemma RetraceInsertOk<K, V>(n: Tree<K, V>, onLeft: bool, oldH: int, going: bool)
    requires n.Node?
    requires var child := if onLeft then n.left else n.right;
      var other := if onLeft then n.right else n.left;
      && AvlOk(child) && AvlOk(other) && SizesOk(n)
      && n.height == 1 + Max(oldH, Ht(other))
      && -1 <= oldH - Ht(other) <= 1
      && Ht(child) == (if going then oldH + 1 else oldH)
      && (going && oldH >= 0 ==> Ht(child.left) != Ht(child.right))
    ensures var child := if onLeft then n.left else n.right;
      var other := if onLeft then n.right else n.left;
      var r := RetraceInsert(n, child, going);
      && AvlOk(r.0)
      && Ht(r.0) == 1 + Max(oldH, Ht(other)) + (if r.1 then 1 else 0)
      && (r.1 ==> Ht(r.0.left) != Ht(r.0.right))
  {
    var child := if onLeft then n.left else n.right;
    CachedHeight(child);
    if going && n.height < H(child) + 1 {
      RetraceInsertGrow(n, onLeft, oldH, going);
    } else {
      RetraceInsertStop(n, onLeft, oldH, going);
    }
  }

  /** The retrace stops here: the node is returned as it is, and it was
      already an AVL tree of the height it had. */
  lemma RetraceInsertStop<K, V>(n: Tree<K, V>, onLeft: bool, oldH: int, going: bool)
    requires n.Node?
    requires var child := if onLeft then n.left else n.right;
      var other := if onLeft then n.right else n.left;
      && AvlOk(child) && AvlOk(other) && SizesOk(n)
      && n.height == 1 + Max(oldH, Ht(other))
      && -1 <= oldH - Ht(other) <= 1
      && Ht(child) == (if going then oldH + 1 else oldH)
      && (going && oldH >= 0 ==> Ht(child.left) != Ht(child.right))
    requires !going || n.height >= H(if onLeft then n.left else n.right) + 1
    ensures var child := if onLeft then n.left else n.right;
      var other := if onLeft then n.right else n.left;
      var r := RetraceInsert(n, child, going);
      && AvlOk(r.0)
      && Ht(r.0) == 1 + Max(oldH, Ht(other)) + (if r.1 then 1 else 0)
      && (r.1 ==> Ht(r.0.left) != Ht(r.0.right))
  {
    var child := if onLeft then n.left else n.right;
    var other := if onLeft then n.right else n.left;
    CachedHeight(child);
    assert Ht(child) <= Ht(other) + 1 && Ht(other) <= Ht(child) + 1;
    assert Ht(n) == 1 + Max(Ht(child), Ht(other));
    assert n.height == Ht(n);
  }

  /** The retrace raises the node's cached height and balances it. */
  lemma RetraceInsertGrow<K, V>(n: Tree<K, V>, onLeft: bool, oldH: int, going: bool)
    requires n.Node?
    requires var child := if onLeft then n.left else n.right;
      var other := if onLeft then n.right else n.left;
      && AvlOk(child) && AvlOk(other) && SizesOk(n)
      && n.height == 1 + Max(oldH, Ht(other))
      && -1 <= oldH - Ht(other) <= 1
      && Ht(child) == (if going then oldH + 1 else oldH)
      && (going && oldH >= 0 ==> Ht(child.left) != Ht(child.right))
    requires going && n.height < H(if onLeft then n.left else n.right) + 1
    ensures var child := if onLeft then n.left else n.right;
      var other := if onLeft then n.right else n.left;
      var r := RetraceInsert(n, child, going);
      && AvlOk(r.0)
      && Ht(r.0) == 1 + Max(oldH, Ht(other)) + (if r.1 then 1 else 0)
      && (r.1 ==> Ht(r.0.left) != Ht(r.0.right))
  {
    var child := if onLeft then n.left else n.right;
    var other := if onLeft then n.right else n.left;
    CachedHeight(child);
    assert Ht(other) <= oldH;
    var n1 := n.(height := H(child) + 1);
    assert Ht(n1) == oldH + 2;
    assert Balanceable(n1);
    RetraceGrowOk(n1);
    var b := Balance(n1);
    assert RetraceInsert(n, child, going) == (b.0, !b.1);
    assert 1 + Max(oldH, Ht(other)) == oldH + 1;
    assert Ht(b.0) == oldH + 2 - (if b.1 then 1 else 0);
  }

  /** The retrace step that raises the parent's cached height: one child
      is one taller than the other and, unless it is a single node, not
      level. The balanced node is an AVL tree, as tall as `n1` claims when no
      rotation happened (and then not level), and one lower after a
      rotation. */
  lemma RetraceGrowOk<K, V>(n1: Tree<K, V>)
    requires Balanceable(n1)
    requires Ht(n1.left) != Ht(n1.right)
    requires Ht(n1.left) > Ht(n1.right) + 1 ==> n1.left.Node? && Ht(n1.left.left) != Ht(n1.left.right)
    requires Ht(n1.right) > Ht(n1.left) + 1 ==> n1.right.Node? && Ht(n1.right.left) != Ht(n1.right.right)
    ensures var r := Balance(n1);
      && AvlOk(r.0)
      && Ht(r.0) == Ht(n1) - (if r.1 then 1 else 0)
      && (!r.1 ==> Ht(r.0.left) != Ht(r.0.right))
  {
    BalanceOk(n1);
  }

  /** Insertion keeps the AVL invariant: the result is one taller exactly
      when the retrace is still going, and then its root is not level. */
  lemma {:induction false} InsertRecAvl<K, V>(lt: (K, K) -> bool, t: Tree<K, V>, k: K, v: V)
    requires AvlOk(t)
    ensures var r := InsertRec(lt, t, k, v);
      && AvlOk(r.0)
      && Ht(r.0) == (if r.1 then Ht(t) + 1 else Ht(t))
      && (r.1 && t.Node? ==> Ht(r.0.left) != Ht(r.0.right))
  {
    match t
    case Leaf =>
    case Node(l, kk, vv, rr, _, _) =>
      CachedHeight(t);
      if lt(k, kk) {
        var (l', going) := InsertRec(lt, l, k, v);
        InsertRecAvl(lt, l, k, v);
        RetraceInsertOk(UpdateRank(t.(left := l')), true, Ht(l), going);
      } else if lt(kk, k) {
        var (r', going) := InsertRec(lt, rr, k, v);
        InsertRecAvl(lt, rr, k, v);
        RetraceInsertOk(UpdateRank(t.(right := r')), false, Ht(rr), going);
      }
  }

  /** Replacing a child by one that maps one more key, absent elsewhere. */
  lemma MapChildInsert<K, V>(t: Tree<K, V>, c: Tree<K, V>, onLeft: bool, k: K, v: V)
    requires t.Node? && k != t.key
    requires onLeft ==> Map(c) == Map(t.left)[k := v] && k !in Map(t.right)
    requires !onLeft ==> Map(c) == Map(t.right)[k := v] && k !in Map(t.left)
    ensures Map(if onLeft then t.(left := c) else t.(right := c)) == Map(t)[k := v]
  {
    MapNode(t);
    if onLeft {
      MapNode(t.(left := c));
    } else {
      MapNode(t.(right := c));
    }
  }

  /** Insertion of an absent key into a search tree: the result is a search
      tree mapping exactly one more key. */
  lemma {:induction false} InsertRecOrder<K(!new), V>(lt: (K, K) -> bool, t: Tree<K, V>, k: K, v: V)
    requires StrictTotalOrder(lt) && Bst(lt, t) && k !in Keys(t)
    ensures var r := InsertRec(lt, t, k, v);
      && Bst(lt, r.0)
      && Map(r.0) == Map(t)[k := v]
      && Keys(r.0) == Keys(t) + {k}
  {
    match t
    case Leaf =>
      MapNode(NewNode(k, v));
      KeysOfMap(NewNode(k, v));
    case Node(l, kk, vv, rr, _, _) =>
      if lt(k, kk) {
        InsertRecOrder(lt, l, k, v);
        InsertStepOrder(lt, t, InsertRec(lt, l, k, v), true, k, v);
      } else {
        assert lt(kk, k);
        InsertRecOrder(lt, rr, k, v);
        InsertStepOrder(lt, t, InsertRec(lt, rr, k, v), false, k, v);
      }
  }

  /** One level of the insertion: hanging the grown child `c.0` and
      retracing keeps a search tree and adds exactly k→v. */
  lemma InsertStepOrder<K(!new), V>(lt: (K, K) -> bool, t: Tree<K, V>, c: (Tree<K, V>, bool), onLeft: bool, k: K, v: V)
    requires StrictTotalOrder(lt) && Bst(lt, t) && t.Node? && k !in Keys(t)
    requires if onLeft then lt(k, t.key) else lt(t.key, k)
    requires var sub := if onLeft then t.left else t.right;
      Bst(lt, c.0) && Map(c.0) == Map(sub)[k := v] && Keys(c.0) == Keys(sub) + {k}
    ensures var n0 := UpdateRank(if onLeft then t.(left := c.0) else t.(right := c.0));
      var r := RetraceInsert(n0, c.0, c.1).0;
      && Bst(lt, r)
      && Map(r) == Map(t)[k := v]
      && Keys(r) == Keys(t) + {k}
  {
    var n := if onLeft then t.(left := c.0) else t.(right := c.0);
    var n0 := UpdateRank(n);
    assert Items(n0) == Items(n);
    assert Bst(lt, n);
    KeysOfMap(t.left);
    KeysOfMap(t.right);
    MapChildInsert(t, c.0, onLeft, k, v);
    SameItems(lt, n0, RetraceInsert(n0, c.0, c.1).0);
    SameItems(lt, n, n0);
  }

  lemma InsertRecOk<K(!new), V>(lt: (K, K) -> bool, t: Tree<K, V>, k: K, v: V)
    requires StrictTotalOrder(lt) && Valid(lt, t) && k !in Keys(t)
    ensures var r := InsertRec(lt, t, k, v);
      && Valid(lt, r.0)
      && Map(r.0) == Map(t)[k := v]
      && Ht(r.0) <= Ht(t) + 1
  {
    InsertRecAvl(lt, t, k, v);
    InsertRecOrder(lt, t, k, v);
  }
}
