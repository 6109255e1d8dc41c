/** `generateTree` (Wet1/AVLTree.h): the O(n) construction of a tree from an
    array of values already sorted by key. The middle element becomes the
    root and the two halves are built recursively; `chooseKey` extracts the
    key each value is stored under. */
module AvlBuild {
  import opened Orders
  import opened AvlNode
  import opened AvlQuery

  /** The (key, value) pairs an array of values denotes, each under its key. */
  ghost function Pairs<K, V>(keyOf: V -> K, arr: seq<V>): seq<(K, V)> {
    seq(|arr|, i requires 0 <= i < |arr| => (keyOf(arr[i]), arr[i]))
  }

  /** floor(log2 n) for n >= 1, and -1 for n == 0: the height of the tree
      built from n values. */
  function Log(n: nat): (r: int)
    ensures -1 <= r < n && (r == -1 <==> n == 0)
  {
    if n == 0 then -1 else 1 + Log(n / 2)
  }

  lemma {:induction false} LogMonotone(a: nat, b: nat)
    requires a <= b
    ensures Log(a) <= Log(b)
  {
    if a > 0 {
      LogMonotone(a / 2, b / 2);
    }
  }

  /** One more value raises the height by at most one. */
  lemma {:induction false} LogStep(a: nat)
    ensures Log(a + 1) <= Log(a) + 1
  {
    if a > 0 {
      LogStep(a / 2);
      LogMonotone((a + 1) / 2, a / 2 + 1);
    }
  }

  /** `generateTree(arr, size)`: the first `size` values become a tree whose
      in-order sequence is exactly those values under their keys, with every
      cache right, AVL-balanced and of height floor(log2 size); a non-positive
      size gives the empty tree. Wet1 nodes carry no `nodesInSub`; the model
      fills the size cache along with the height. */
  function GenerateTree<K, V>(keyOf: V -> K, arr: seq<V>, size: int): (t: Tree<K, V>)
    requires size <= |arr|
    ensures size <= 0 ==> t == Leaf
    ensures size > 0 ==> Items(t) == Pairs(keyOf, arr[..size])
    ensures AvlOk(t) && Ht(t) == Log(if size <= 0 then 0 else size)
    decreases size
  {
    if size <= 0 then Leaf
    else
      var mid := size / 2;
      var l := GenerateTree(keyOf, arr, mid);
      var r := GenerateTree(keyOf, arr[mid + 1..], size - mid - 1);
      var t := Refresh(Node(l, keyOf(arr[mid]), arr[mid], r, 0, 1));
      PairsSplit(keyOf, arr, size, l, r);
      LogMonotone(size - mid - 1, mid);
      LogStep(size - mid - 1);
      assert mid == size - mid - 1 || mid == size - mid;
      t
  }

  lemma PairsSplit<K, V>(keyOf: V -> K, arr: seq<V>, size: int, l: Tree<K, V>, r: Tree<K, V>)
    requires 0 < size <= |arr|
    requires size / 2 > 0 ==> Items(l) == Pairs(keyOf, arr[..size / 2])
    requires size / 2 <= 0 ==> l == Leaf
    requires size - size / 2 - 1 > 0 ==> Items(r) == Pairs(keyOf, arr[size / 2 + 1..][..size - size / 2 - 1])
    requires size - size / 2 - 1 <= 0 ==> r == Leaf
    ensures Items(l) + [(keyOf(arr[size / 2]), arr[size / 2])] + Items(r) == Pairs(keyOf, arr[..size])
  {
    var mid := size / 2;
    var s := Items(l) + [(keyOf(arr[mid]), arr[mid])] + Items(r);
    var p := Pairs(keyOf, arr[..size]);
    assert |s| == |p|;
    forall i | 0 <= i < |p|
      ensures s[i] == p[i]
    {
      if i < mid {
        assert s[i] == Items(l)[i];
      } else if i > mid {
        assert s[i] == Items(r)[i - mid - 1];
        assert arr[mid + 1..][..size - mid - 1][i - mid - 1] == arr[i];
      }
    }
  }

  /** Built from values whose keys strictly increase, the tree is a valid
      search tree mapping each key to its value. */
  lemma BuildValid<K(!new), V>(lt: (K, K) -> bool, keyOf: V -> K, arr: seq<V>, size: int)
    requires StrictTotalOrder(lt) && 0 < size <= |arr|
    requires StrictlySorted(lt, Pairs(keyOf, arr[..size]))
    ensures Valid(lt, GenerateTree(keyOf, arr, size))
    ensures forall i | 0 <= i < size ::
      keyOf(arr[i]) in Map(GenerateTree(keyOf, arr, size)) && Map(GenerateTree(keyOf, arr, size))[keyOf(arr[i])] == arr[i]
  {
    var t := GenerateTree(keyOf, arr, size);
    SortedBst(lt, t);
    forall i | 0 <= i < size
      ensures keyOf(arr[i]) in Map(t) && Map(t)[keyOf(arr[i])] == arr[i]
    {
      assert Items(t)[i] == (keyOf(arr[i]), arr[i]);
      MapOfSorted(lt, Items(t), i);
    }
  }

  /** In a strictly sorted sequence every pair is what the map says. */
  lemma {:induction false} MapOfSorted<K(!new), V>(lt: (K, K) -> bool, items: seq<(K, V)>, i: int)
    requires StrictTotalOrder(lt) && StrictlySorted(lt, items) && 0 <= i < |items|
    ensures items[i].0 in MapOf(items) && MapOf(items)[items[i].0] == items[i].1
  {
    if i > 0 {
      SortedTail(lt, items);
      MapOfSorted(lt, items[1..], i - 1);
      assert items[1..][i - 1] == items[i];
      assert lt(items[0].0, items[i].0);
    }
  }

  /** `arrayInOrder` after `generateTree` gives back the array it was built
      from. */
  lemma BuildRoundTrip<K, V>(keyOf: V -> K, arr: seq<V>, size: int, out: seq<V>)
    requires 0 < size <= |arr| && size <= |out|
    ensures |Items(GenerateTree(keyOf, arr, size))| == size
    ensures ArrayInOrder(GenerateTree(keyOf, arr, size), out)[..size] == arr[..size]
  {
    var t := GenerateTree(keyOf, arr, size);
    assert |Pairs(keyOf, arr[..size])| == size;
    var r := ArrayInOrder(t, out);
    assert Values(Items(t)) == arr[..size];
  }
}
