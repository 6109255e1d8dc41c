/** The node of the height-balanced search tree (Wet2/AVLTreeNode.h), the
    node-level helpers, and the abstractions every tree operation is specified
    against: the in-order sequence `Items`, the key set `Keys`, the key→value
    map `Map`, and the ordering / cache / balance invariants. */
module AvlNode {
  import opened Orders

  /** `height` is the cached height (0 for a node without children) and `size`
      the cached number of nodes in the subtree (`nodesInSub`). Parent links are
      not represented: a node's parent is the node whose subtree it sits in. */
  datatype Tree<K, V> =
    | Leaf
    | Node(left: Tree<K, V>, key: K, value: V, right: Tree<K, V>, height: nat, size: nat)

  /** A child position on the way down from the root. */
  datatype Dir = GoLeft | GoRight

  /** What `getSonType` reports about a node. */
  datatype SonType = Root | LeftSon | RightSon

  function Max(a: int, b: int): int {
    if a > b then a else b
  }

  /** Cached height of a subtree; a missing child counts as -1. */
  function H<K, V>(t: Tree<K, V>): int {
    if t.Leaf? then -1 else t.height
  }

  /** Cached node count of a subtree; a missing child counts as 0. */
  function S<K, V>(t: Tree<K, V>): nat {
    if t.Leaf? then 0 else t.size
  }

  // ------------------------------------------------------------------
  // Abstractions
  // ------------------------------------------------------------------

  /** The in-order sequence of (key, value) pairs. */
  ghost function Items<K, V>(t: Tree<K, V>): seq<(K, V)> {
    match t
    case Leaf => []
    case Node(l, k, v, r, _, _) => Items(l) + [(k, v)] + Items(r)
  }

  ghost function Keys<K, V>(t: Tree<K, V>): set<K> {
    match t
    case Leaf => {}
    case Node(l, k, _, r, _, _) => Keys(l) + {k} + Keys(r)
  }

  /** The map a sequence of pairs denotes; an earlier pair wins over a later one
      with the same key (which a search tree never holds). */
  ghost function MapOf<K, V>(items: seq<(K, V)>): map<K, V> {
    if |items| == 0 then map[] else MapOf(items[1..])[items[0].0 := items[0].1]
  }

  /** The abstract key→value map of the tree. */
  ghost function Map<K, V>(t: Tree<K, V>): map<K, V> {
    MapOf(Items(t))
  }

  /** The values in key order. */
  ghost function Values<K, V>(items: seq<(K, V)>): seq<V> {
    seq(|items|, i requires 0 <= i < |items| => items[i].1)
  }

  /** The search-tree ordering: every key of the left subtree is smaller, every
      key of the right subtree larger, than the node's key. */
  ghost predicate Bst<K, V>(lt: (K, K) -> bool, t: Tree<K, V>) {
    match t
    case Leaf => true
    case Node(l, k, _, r, _, _) =>
      && Bst(lt, l)
      && Bst(lt, r)
      && (forall x | x in Keys(l) :: lt(x, k))
      && (forall x | x in Keys(r) :: lt(k, x))
  }

  /** The true height of a subtree (an empty one has height -1). */
  ghost function Ht<K, V>(t: Tree<K, V>): int {
    match t
    case Leaf => -1
    case Node(l, _, _, r, _, _) => 1 + Max(Ht(l), Ht(r))
  }

  /** Every cached height is the true height. */
  ghost predicate HeightsOk<K, V>(t: Tree<K, V>) {
    match t
    case Leaf => true
    case Node(l, _, _, r, h, _) => HeightsOk(l) && HeightsOk(r) && h == Ht(t)
  }

  /** Every cached `nodesInSub` is the number of nodes in the subtree. */
  ghost predicate SizesOk<K, V>(t: Tree<K, V>) {
    match t
    case Leaf => true
    case Node(l, _, _, r, _, s) => SizesOk(l) && SizesOk(r) && s == |Items(t)|
  }

  /** The AVL invariant, on true heights. */
  ghost predicate Balanced<K, V>(t: Tree<K, V>) {
    match t
    case Leaf => true
    case Node(l, _, _, r, _, _) => Balanced(l) && Balanced(r) && -1 <= Ht(l) - Ht(r) <= 1
  }

  ghost predicate AvlOk<K, V>(t: Tree<K, V>) {
    HeightsOk(t) && SizesOk(t) && Balanced(t)
  }

  /** The class invariant the tree keeps between operations. */
  ghost predicate Valid<K(!new), V>(lt: (K, K) -> bool, t: Tree<K, V>) {
    Bst(lt, t) && AvlOk(t)
  }

  // ------------------------------------------------------------------
  // Node helpers (Wet2/AVLTreeNode.h)
  // ------------------------------------------------------------------

  /** The constructor: a node without children, height 0 and one node in its subtree. */
  function NewNode<K, V>(k: K, v: V): (n: Tree<K, V>)
    ensures n.Node? && Items(n) == [(k, v)] && Keys(n) == {k}
    ensures AvlOk(n) && Ht(n) == 0
  {
    Node(Leaf, k, v, Leaf, 0, 1)
  }

  /** `balanceFactor`: the four cases of the source collapse to one difference of
      cached heights, a missing child counting as -1. */
  function BalanceFactor<K, V>(n: Tree<K, V>): (bf: int)
    requires n.Node?
    ensures bf == H(n.left) - H(n.right)
    ensures HeightsOk(n) ==> bf == Ht(n.left) - Ht(n.right)
  {
    CachedHeight(n.left);
    CachedHeight(n.right);
    if n.left.Leaf? && n.right.Leaf? then 0
    else if n.left.Leaf? then -1 - n.right.height
    else if n.right.Leaf? then n.left.height + 1
    else n.left.height - n.right.height
  }

  /** `updateHeight`: one more than the taller child's cached height, so a node
      without children gets 0. */
  function UpdateHeight<K, V>(n: Tree<K, V>): (m: Tree<K, V>)
    requires n.Node?
    ensures m.Node? && m == n.(height := m.height)
    ensures m.height == 1 + Max(H(n.left), H(n.right))
    ensures HeightsOk(n.left) && HeightsOk(n.right) ==> HeightsOk(m)
  {
    if n.left.Leaf? && n.right.Leaf? then n.(height := 0)
    else if n.left.Leaf? then n.(height := n.right.height + 1)
    else if n.right.Leaf? then n.(height := n.left.height + 1)
    else if n.left.height > n.right.height then n.(height := n.left.height + 1)
    else n.(height := n.right.height + 1)
  }

  /** `updateRank`: one more than the children's cached counts, a missing child
      counting as 0. */
  function UpdateRank<K, V>(n: Tree<K, V>): (m: Tree<K, V>)
    requires n.Node?
    ensures m.Node? && m == n.(size := m.size)
    ensures m.size == 1 + S(n.left) + S(n.right)
    ensures SizesOk(n.left) && SizesOk(n.right) ==> SizesOk(m)
  {
    if n.left.Leaf? && n.right.Leaf? then n.(size := 1)
    else if n.left.Leaf? then n.(size := n.right.size + 1)
    else if n.right.Leaf? then n.(size := n.left.size + 1)
    else n.(size := n.left.size + n.right.size + 1)
  }

  /** Both caches recomputed from the children, as every rotation does for the
      nodes it moves. */
  function Refresh<K, V>(n: Tree<K, V>): (m: Tree<K, V>)
    requires n.Node?
    ensures m.Node? && m.left == n.left && m.key == n.key && m.value == n.value && m.right == n.right
    ensures m.height == 1 + Max(H(n.left), H(n.right)) && m.size == 1 + S(n.left) + S(n.right)
    ensures HeightsOk(n.left) && HeightsOk(n.right) ==> HeightsOk(m) && Ht(m) == 1 + Max(Ht(n.left), Ht(n.right))
    ensures SizesOk(n.left) && SizesOk(n.right) ==> SizesOk(m)
  {
    CachedHeight(n.left);
    CachedHeight(n.right);
    UpdateRank(UpdateHeight(n))
  }

  /** The subtree at a position (a path of child directions from the root). */
  function At<K, V>(t: Tree<K, V>, p: seq<Dir>): Tree<K, V>
    decreases |p|
  {
    if |p| == 0 || t.Leaf? then t
    else if p[0] == GoLeft then At(t.left, p[1..])
    else At(t.right, p[1..])
  }

  /** `getSonType` of the node at position `p`: ROOT iff it has no parent, LEFT
      iff it is its parent's left child, RIGHT otherwise. */
  function SonTypeOf<K, V>(t: Tree<K, V>, p: seq<Dir>): (st: SonType)
    ensures st == Root <==> |p| == 0
    ensures st == LeftSon ==> At(t, p) == At(At(t, p[..|p| - 1]), [GoLeft])
    ensures st == RightSon ==> At(t, p) == At(At(t, p[..|p| - 1]), [GoRight])
  {
    AtSnoc(t, p);
    if |p| == 0 then Root
    else if p[|p| - 1] == GoLeft then LeftSon
    else RightSon
  }

  // ------------------------------------------------------------------
  // Lemmas about the abstractions
  // ------------------------------------------------------------------

  lemma {:induction false} AtSnoc<K, V>(t: Tree<K, V>, p: seq<Dir>)
    ensures |p| > 0 ==> At(t, p) == At(At(t, p[..|p| - 1]), [p[|p| - 1]])
    decreases |p|
  {
    if |p| > 0 && t.Node? {
      if |p| > 1 {
        assert p[1..][..|p[1..]| - 1] == p[..|p| - 1][1..];
        if p[0] == GoLeft {
          AtSnoc(t.left, p[1..]);
        } else {
          AtSnoc(t.right, p[1..]);
        }
      }
    }
  }

  lemma {:induction false} MapOfAppend<K, V>(a: seq<(K, V)>, b: seq<(K, V)>)
    ensures MapOf(a + b) == MapOf(b) + MapOf(a)
    decreases |a|
  {
    if |a| > 0 {
      assert (a + b)[1..] == a[1..] + b;
      MapOfAppend(a[1..], b);
    } else {
      assert a + b == b;
    }
  }

  /** The map of a node is the union of its children's maps and its own pair. */
  lemma MapNode<K, V>(t: Tree<K, V>)
    requires t.Node?
    ensures Map(t) == Map(t.right) + (map[t.key := t.value] + Map(t.left))
  {
    var L, R := Items(t.left), Items(t.right);
    assert Items(t) == (L + [(t.key, t.value)]) + R;
    MapOfAppend(L + [(t.key, t.value)], R);
    MapOfAppend(L, [(t.key, t.value)]);
    assert MapOf([(t.key, t.value)]) == map[t.key := t.value] by {
      assert [(t.key, t.value)][1..] == [];
    }
  }

  lemma {:induction false} KeysOfMap<K, V>(t: Tree<K, V>)
    ensures Map(t).Keys == Keys(t)
  {
    if t.Node? {
      MapNode(t);
      KeysOfMap(t.left);
      KeysOfMap(t.right);
    }
  }

  /** `Keys` is the set of keys appearing in `Items`. */
  lemma {:induction false} KeysOfItems<K, V>(t: Tree<K, V>)
    ensures forall x | x in Keys(t) :: exists i :: 0 <= i < |Items(t)| && Items(t)[i].0 == x
    ensures forall i | 0 <= i < |Items(t)| :: Items(t)[i].0 in Keys(t)
  {
    if t.Node? {
      KeysOfItems(t.left);
      KeysOfItems(t.right);
      var L, R := Items(t.left), Items(t.right);
      var n := |L|;
      assert Items(t) == L + [(t.key, t.value)] + R;
      forall x | x in Keys(t)
        ensures exists i :: 0 <= i < |Items(t)| && Items(t)[i].0 == x
      {
        if x in Keys(t.left) {
          assert exists i :: 0 <= i < |Items(t.left)| && Items(t.left)[i].0 == x;
          var i :| 0 <= i < |L| && L[i].0 == x;
          assert Items(t)[i] == L[i];
        } else if x == t.key {
          assert Items(t)[n].0 == x;
        } else {
          assert x in Keys(t.right);
          assert exists i :: 0 <= i < |Items(t.right)| && Items(t.right)[i].0 == x;
          var i :| 0 <= i < |R| && R[i].0 == x;
          assert Items(t)[n + 1 + i] == R[i];
        }
      }
      forall i | 0 <= i < |Items(t)|
        ensures Items(t)[i].0 in Keys(t)
      {
        if i < n {
          assert L[i] == Items(t)[i];
        } else if i > n {
          assert R[i - n - 1] == Items(t)[i];
        }
      }
    }
  }

  lemma CachedHeight<K, V>(t: Tree<K, V>)
    ensures HeightsOk(t) ==> H(t) == Ht(t)
  {
  }

  lemma CachedSize<K, V>(t: Tree<K, V>)
    ensures SizesOk(t) ==> S(t) == |Items(t)|
  {
  }

  /** A search tree's in-order sequence is strictly sorted by key. */
  lemma {:induction false} BstSorted<K(!new), V>(lt: (K, K) -> bool, t: Tree<K, V>)
    requires StrictTotalOrder(lt)
    requires Bst(lt, t)
    ensures StrictlySorted(lt, Items(t))
  {
    if t.Node? {
      BstSorted(lt, t.left);
      BstSorted(lt, t.right);
      KeysOfItems(t.left);
      KeysOfItems(t.right);
      var L, R := Items(t.left), Items(t.right);
      var n := |L|;
      var s := Items(t);
      assert s == L + [(t.key, t.value)] + R;
      forall i, j | 0 <= i < j < |s|
        ensures lt(s[i].0, s[j].0)
      {
        if j < n {
          assert s[i] == L[i] && s[j] == L[j];
        } else if i > n {
          assert s[i] == R[i - n - 1] && s[j] == R[j - n - 1];
        } else if i < n && j == n {
          assert s[i] == L[i];
          assert L[i].0 in Keys(t.left);
        } else if i == n {
          assert s[j] == R[j - n - 1];
          assert R[j - n - 1].0 in Keys(t.right);
        } else {
          assert s[i] == L[i] && s[j] == R[j - n - 1];
          assert L[i].0 in Keys(t.left);
          assert R[j - n - 1].0 in Keys(t.right);
        }
      }
    }
  }

  /** In a search tree, each key of `Items` maps to its own value. */
  lemma {:induction false} MapOfBst<K(!new), V>(lt: (K, K) -> bool, t: Tree<K, V>)
    requires StrictTotalOrder(lt)
    requires Bst(lt, t)
    ensures forall i :: 0 <= i < |Items(t)| ==> Items(t)[i].0 in Map(t) && Map(t)[Items(t)[i].0] == Items(t)[i].1
  {
    if t.Node? {
      MapOfBst(lt, t.left);
      MapOfBst(lt, t.right);
      MapNode(t);
      KeysOfMap(t.left);
      KeysOfMap(t.right);
      var L, R := Items(t.left), Items(t.right);
      var n := |L|;
      assert Items(t) == L + [(t.key, t.value)] + R;
      forall i | 0 <= i < |Items(t)|
        ensures Items(t)[i].0 in Map(t) && Map(t)[Items(t)[i].0] == Items(t)[i].1
      {
        if i < n {
          assert Items(t)[i] == L[i];
          assert L[i].0 in Keys(t.left);
          assert L[i].0 !in Keys(t.right);
        } else if i > n {
          assert Items(t)[i] == R[i - n - 1];
        }
      }
    }
  }

  /** Conversely, a tree whose in-order keys strictly increase is a search tree. */
  lemma {:induction false} SortedBst<K, V>(lt: (K, K) -> bool, t: Tree<K, V>)
    requires StrictlySorted(lt, Items(t))
    ensures Bst(lt, t)
  {
    if t.Node? {
      var L, R := Items(t.left), Items(t.right);
      var n := |L|;
      var s := Items(t);
      assert s == L + [(t.key, t.value)] + R;
      forall i, j | 0 <= i < j < |L|
        ensures lt(L[i].0, L[j].0)
      {
        assert L[i] == s[i] && L[j] == s[j];
      }
      forall i, j | 0 <= i < j < |R|
        ensures lt(R[i].0, R[j].0)
      {
        assert R[i] == s[n + 1 + i] && R[j] == s[n + 1 + j];
      }
      SortedBst(lt, t.left);
      SortedBst(lt, t.right);
      KeysOfItems(t.left);
      KeysOfItems(t.right);
      assert s[n].0 == t.key;
      forall x | x in Keys(t.left)
        ensures lt(x, t.key)
      {
        assert exists i :: 0 <= i < |L| && L[i].0 == x;
        var i :| 0 <= i < |L| && L[i].0 == x;
        assert s[i] == L[i];
      }
      forall x | x in Keys(t.right)
        ensures lt(t.key, x)
      {
        assert exists i :: 0 <= i < |R| && R[i].0 == x;
        var i :| 0 <= i < |R| && R[i].0 == x;
        assert s[n + 1 + i] == R[i];
      }
    }
  }

  /** Being a search tree depends only on the in-order sequence. */
  lemma BstIffSorted<K(!new), V>(lt: (K, K) -> bool, t: Tree<K, V>)
    requires StrictTotalOrder(lt)
    ensures Bst(lt, t) <==> StrictlySorted(lt, Items(t))
  {
    if Bst(lt, t) {
      BstSorted(lt, t);
    }
    if StrictlySorted(lt, Items(t)) {
      SortedBst(lt, t);
    }
  }

  /** Trees with the same in-order sequence agree on order, map and keys. */
  lemma SameItems<K(!new), V>(lt: (K, K) -> bool, a: Tree<K, V>, b: Tree<K, V>)
    requires StrictTotalOrder(lt) && Items(a) == Items(b)
    ensures Bst(lt, a) <==> Bst(lt, b)
    ensures Map(a) == Map(b) && Keys(a) == Keys(b)
  {
    BstIffSorted(lt, a);
    BstIffSorted(lt, b);
    KeysOfMap(a);
    KeysOfMap(b);
  }
}
