/** A family of trees on which the source's `balanceRemove` leaves a stale
    cached height at the root, and the corrected retrace does not. Any eight
    ascending integer keys `a < b < c < d < e < f < g < h` will do, 1, 2, 3,
    4, 5, 7, 8, 9 for one: inserting them in the order e, c, g, b, d, f, h, a
    builds `Sample` without a rotation, and removing `d` shows the defect. */
module AvlSample {
  import opened Orders
  import opened AvlNode
  import opened AvlRotate
  import opened AvlRemove

  function IntLt(x: int, y: int): bool {
    x < y
  }

  function Single(k: int): Tree<int, int> {
    Node(Leaf, k, k, Leaf, 0, 1)
  }

  /** `b` over its left child `a`. */
  function Pair(a: int, b: int): Tree<int, int> {
    Node(Single(a), b, b, Leaf, 1, 2)
  }

  /** `b` over the two leaves `a` and `c`. */
  function Three(a: int, b: int, c: int): Tree<int, int> {
    Node(Single(a), b, b, Single(c), 1, 3)
  }

  /** The left subtree of `Sample`: `c` over `Pair(a, b)` and `d`. */
  function SampleLeft(a: int, b: int, c: int, d: int): Tree<int, int> {
    Node(Pair(a, b), c, c, Single(d), 2, 4)
  }

  function Sample(a: int, b: int, c: int, d: int, e: int, f: int, g: int, h: int): Tree<int, int> {
    Node(SampleLeft(a, b, c, d), e, e, Three(f, g, h), 3, 8)
  }

  lemma IntLtOrder()
    ensures StrictTotalOrder(IntLt)
  {
  }

  lemma SingleValid(k: int)
    ensures Valid(IntLt, Single(k)) && Keys(Single(k)) == {k} && Ht(Single(k)) == 0
    ensures |Items(Single(k))| == 1
  {
  }

  lemma PairValid(a: int, b: int)
    requires a < b
    ensures Valid(IntLt, Pair(a, b)) && Keys(Pair(a, b)) == {a, b} && Ht(Pair(a, b)) == 1
    ensures |Items(Pair(a, b))| == 2
  {
    SingleValid(a);
  }

  lemma ThreeValid(a: int, b: int, c: int)
    requires a < b < c
    ensures Valid(IntLt, Three(a, b, c)) && Keys(Three(a, b, c)) == {a, b, c} && Ht(Three(a, b, c)) == 1
    ensures |Items(Three(a, b, c))| == 3
  {
    SingleValid(a);
    SingleValid(c);
  }

  lemma SampleLeftValid(a: int, b: int, c: int, d: int)
    requires a < b < c < d
    ensures Valid(IntLt, SampleLeft(a, b, c, d)) && Keys(SampleLeft(a, b, c, d)) == {a, b, c, d}
    ensures Ht(SampleLeft(a, b, c, d)) == 2 && |Items(SampleLeft(a, b, c, d))| == 4
  {
    PairValid(a, b);
    SingleValid(d);
  }

  lemma SampleValid(a: int, b: int, c: int, d: int, e: int, f: int, g: int, h: int)
    requires a < b < c < d < e < f < g < h
    ensures Valid(IntLt, Sample(a, b, c, d, e, f, g, h)) && d in Map(Sample(a, b, c, d, e, f, g, h))
  {
    SampleLeftValid(a, b, c, d);
    ThreeValid(f, g, h);
    KeysOfMap(Sample(a, b, c, d, e, f, g, h));
  }

  /** Removing `d` leaves `c` with a left subtree two levels higher than its
      right one; the LL rotation makes `b` the root of that subtree, which is
      now one level lower. Only the corrected retrace goes on climbing. */
  lemma SampleLeftRemove(a: int, b: int, c: int, d: int, mode: Retrace)
    requires a < b < c < d
    ensures RemoveRec(IntLt, SampleLeft(a, b, c, d), d, mode) == (Three(a, b, c), mode == Corrected)
  {
    assert RemoveRec(IntLt, Single(d), d, mode) == (Leaf, true);
    var n := Node(Pair(a, b), c, c, Leaf, 2, 4);
    assert Refresh(n) == Node(Pair(a, b), c, c, Leaf, 2, 3);
    assert BalanceFactor(Refresh(n)) == 2 && BalanceFactor(Pair(a, b)) == 1;
    assert RotateLL(Refresh(n)) == Three(a, b, c);
  }

  lemma SampleRemove(a: int, b: int, c: int, d: int, e: int, f: int, g: int, h: int, mode: Retrace)
    requires a < b < c < d < e < f < g < h
    ensures RemoveRec(IntLt, Sample(a, b, c, d, e, f, g, h), d, mode).0
      == Node(Three(a, b, c), e, e, Three(f, g, h), if mode == AsWritten then 3 else 2, 7)
  {
    SampleLeftRemove(a, b, c, d, mode);
    if mode == Corrected {
      var n := Node(Three(a, b, c), e, e, Three(f, g, h), 3, 8);
      assert Refresh(n) == Node(Three(a, b, c), e, e, Three(f, g, h), 2, 7);
      assert BalanceFactor(Refresh(n)) == 0;
    }
  }

  /** Removing `d` from `Sample` unbalances `c`, whose LL rotation lowers
      that subtree from height 2 to 1; the as-written retrace stops there, so
      the root keeps cached height 3 although the tree is now of height 2.
      The corrected retrace climbs on and refreshes the root. */
  lemma StaleHeightAfterRemove(a: int, b: int, c: int, d: int, e: int, f: int, g: int, h: int)
    requires a < b < c < d < e < f < g < h
    ensures Valid(IntLt, Sample(a, b, c, d, e, f, g, h))
    ensures StrictTotalOrder(IntLt)
    ensures var r := RemoveAsWritten(IntLt, Sample(a, b, c, d, e, f, g, h), d);
      r.Success? && r.value.height == 3 && Ht(r.value) == 2 && !HeightsOk(r.value)
    ensures var r := Remove(IntLt, Sample(a, b, c, d, e, f, g, h), d);
      r.Success? && r.value.height == 2 && Ht(r.value) == 2
  {
    IntLtOrder();
    SampleValid(a, b, c, d, e, f, g, h);
    SampleRemove(a, b, c, d, e, f, g, h, AsWritten);
    SampleRemove(a, b, c, d, e, f, g, h, Corrected);
    ThreeValid(a, b, c);
    ThreeValid(f, g, h);
  }
}
