/** Properties of the comparators (`operator<`) that the trees are keyed through,
    and of sequences sorted by them. */
module Orders {

  ghost predicate Irreflexive<K(!new)>(lt: (K, K) -> bool) {
    forall a :: !lt(a, a)
  }

  ghost predicate Transitive<K(!new)>(lt: (K, K) -> bool) {
    forall a, b, c :: lt(a, b) && lt(b, c) ==> lt(a, c)
  }

  /** Any two distinct keys are comparable. */
  ghost predicate Trichotomous<K(!new)>(lt: (K, K) -> bool) {
    forall a, b :: a != b ==> lt(a, b) || lt(b, a)
  }

  /** What the trees need from their key comparator: `!(a < b) && !(b < a)` means `a == b`. */
  ghost predicate StrictTotalOrder<K(!new)>(lt: (K, K) -> bool) {
    Irreflexive(lt) && Transitive(lt) && Trichotomous(lt)
  }

  /** The same three laws, restricted to the elements of a set. */
  ghost predicate StrictTotalOrderOn<K>(lt: (K, K) -> bool, xs: set<K>) {
    && (forall a | a in xs :: !lt(a, a))
    && (forall a, b, c | a in xs && b in xs && c in xs :: lt(a, b) && lt(b, c) ==> lt(a, c))
    && (forall a, b | a in xs && b in xs :: a != b ==> lt(a, b) || lt(b, a))
  }

  /** Keys strictly increase along the sequence of (key, value) pairs. */
  ghost predicate StrictlySorted<K, V>(lt: (K, K) -> bool, items: seq<(K, V)>) {
    forall i, j :: 0 <= i < j < |items| ==> lt(items[i].0, items[j].0)
  }

  /** No element is smaller than one before it: the order a merge produces. */
  ghost predicate SortedBy<T>(lt: (T, T) -> bool, xs: seq<T>) {
    forall i, j :: 0 <= i < j < |xs| ==> !lt(xs[j], xs[i])
  }

  lemma TotalOrderOnAll<K(!new)>(lt: (K, K) -> bool, xs: set<K>)
    requires StrictTotalOrder(lt)
    ensures StrictTotalOrderOn(lt, xs)
  {
  }

  /** In a strictly sorted sequence a key occurs at one index only. */
  lemma SortedKeysUnique<K(!new), V>(lt: (K, K) -> bool, items: seq<(K, V)>)
    requires Irreflexive(lt) && StrictlySorted(lt, items)
    ensures forall i, j | 0 <= i < |items| && 0 <= j < |items| && items[i].0 == items[j].0 :: i == j
  {
  }

  /** Dropping the first pair of a strictly sorted sequence leaves it sorted,
      and the dropped key is below every remaining one. */
  lemma SortedTail<K, V>(lt: (K, K) -> bool, items: seq<(K, V)>)
    requires StrictlySorted(lt, items) && |items| > 0
    ensures StrictlySorted(lt, items[1..])
    ensures forall j | 0 <= j < |items[1..]| :: lt(items[0].0, items[1..][j].0)
  {
    forall i, j | 0 <= i < j < |items[1..]|
      ensures lt(items[1..][i].0, items[1..][j].0)
    {
      assert items[1..][i] == items[i + 1] && items[1..][j] == items[j + 1];
    }
    forall j | 0 <= j < |items[1..]|
      ensures lt(items[0].0, items[1..][j].0)
    {
      assert items[1..][j] == items[j + 1];
    }
  }
}
