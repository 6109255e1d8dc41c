/** The chained hash table of Wet2 (Wet2/Hash.cpp): players keyed by id,
    `h(id) = id % arrSize`, each bucket a singly linked list with insertion
    at the head, and a doubling rehash once the count reaches the number of
    buckets. A bucket list is a `seq`, head first; `idOf` is
    `Player::getId`. Ids are non-negative: every caller rejects ids <= 0
    before reaching the table, and for such ids C++'s truncating `%` agrees
    with Dafny's. */
module Hash {
  import opened Wrappers

  /** `STARTING_SIZE` (Wet2/Hash.h). */
  const StartingSize: int := 16

  datatype Table<V> = Table(buckets: seq<seq<V>>, size: int)

  /** `h`: the bucket of an id. */
  function H(id: int, arrSize: int): (b: int)
    requires id >= 0 && arrSize > 0
    ensures 0 <= b < arrSize
  {
    id % arrSize
  }

  /** Everything stored, bucket by bucket. */
  ghost function Stored<V>(bs: seq<seq<V>>): multiset<V> {
    if |bs| == 0 then multiset{} else multiset(bs[0]) + Stored(bs[1..])
  }

  /** Every entry sits in the bucket its id hashes to. */
  ghost predicate Placed<V>(idOf: V -> int, bs: seq<seq<V>>) {
    forall b, k | 0 <= b < |bs| && 0 <= k < |bs[b]| :: idOf(bs[b][k]) >= 0 && H(idOf(bs[b][k]), |bs|) == b
  }

  /** No player is stored twice and no two stored players share an id. */
  ghost predicate IdsUnique<V>(idOf: V -> int, ms: multiset<V>) {
    && (forall v | v in ms :: ms[v] == 1)
    && (forall v, w | v in ms && w in ms && idOf(v) == idOf(w) :: v == w)
  }

  /** The table's invariant: at least the starting number of buckets, every
      entry in its bucket, ids unique, `size` the number of entries, and
      fewer entries than buckets. */
  ghost predicate Valid<V>(idOf: V -> int, t: Table<V>) {
    && |t.buckets| >= StartingSize
    && Placed(idOf, t.buckets)
    && IdsUnique(idOf, Stored(t.buckets))
    && t.size == |Stored(t.buckets)|
    && t.size < |t.buckets|
  }

  /** The constructor: 16 empty buckets. */
  function NewTable<V>(idOf: V -> int): (t: Table<V>)
    ensures Valid(idOf, t) && |t.buckets| == StartingSize && t.size == 0
    ensures Stored(t.buckets) == multiset{}
  {
    var bs := seq(StartingSize, _ => []);
    EmptyStored(bs);
    Table(bs, 0)
  }

  lemma {:induction false} EmptyStored<V>(bs: seq<seq<V>>)
    requires forall b | 0 <= b < |bs| :: bs[b] == []
    ensures Stored(bs) == multiset{}
  {
    if |bs| > 0 {
      EmptyStored(bs[1..]);
    }
  }

  /** The walk along one bucket list. */
  function Scan<V>(idOf: V -> int, bucket: seq<V>, id: int): (r: Option<V>)
    ensures r.Some? ==> r.value in bucket && idOf(r.value) == id
    ensures r.None? <==> forall k | 0 <= k < |bucket| :: idOf(bucket[k]) != id
  {
    if |bucket| == 0 then None
    else if idOf(bucket[0]) == id then Some(bucket[0])
    else
      var r := Scan(idOf, bucket[1..], id);
      assert forall k | 1 <= k < |bucket| :: bucket[k] == bucket[1..][k - 1];
      r
  }

  /** `find(id)`: the player stored under `id`, if any; only bucket `h(id)`
      is searched, which is enough because every entry sits in its bucket. */
  function Find<V>(idOf: V -> int, t: Table<V>, id: int): (r: Option<V>)
    requires Valid(idOf, t) && id >= 0
    ensures r.Some? ==> r.value in Stored(t.buckets) && idOf(r.value) == id
    ensures r.None? <==> forall v | v in Stored(t.buckets) :: idOf(v) != id
  {
    var b := H(id, |t.buckets|);
    var r := Scan(idOf, t.buckets[b], id);
    BucketStored(t.buckets, b);
    if r.None? then
      AbsentFromBucket(idOf, t, id);
      r
    else r
  }

  /** An id missing from its own bucket is missing from the table. */
  lemma AbsentFromBucket<V>(idOf: V -> int, t: Table<V>, id: int)
    requires Valid(idOf, t) && id >= 0
    requires forall k | 0 <= k < |t.buckets[H(id, |t.buckets|)]| :: idOf(t.buckets[H(id, |t.buckets|)][k]) != id
    ensures forall v | v in Stored(t.buckets) :: idOf(v) != id
  {
    forall v | v in Stored(t.buckets)
      ensures idOf(v) != id
    {
      var c, k := StoredMember(t.buckets, v);
    }
  }

  /** A bucket's entries are stored. */
  lemma {:induction false} BucketStored<V>(bs: seq<seq<V>>, b: int)
    requires 0 <= b < |bs|
    ensures multiset(bs[b]) <= Stored(bs)
  {
    if b > 0 {
      BucketStored(bs[1..], b - 1);
    }
  }

  /** A stored entry sits at some position of some bucket. */
  lemma {:induction false} StoredMember<V>(bs: seq<seq<V>>, v: V) returns (b: int, k: int)
    requires v in Stored(bs)
    ensures 0 <= b < |bs| && 0 <= k < |bs[b]| && bs[b][k] == v
  {
    if v in multiset(bs[0]) {
      b := 0;
      k :| 0 <= k < |bs[0]| && bs[0][k] == v;
    } else {
      b, k := StoredMember(bs[1..], v);
      b := b + 1;
    }
  }

  /** Pushing an entry onto the head of a bucket adds just that entry. */
  lemma {:induction false} StoredPush<V>(bs: seq<seq<V>>, b: int, v: V)
    requires 0 <= b < |bs|
    ensures Stored(bs[b := [v] + bs[b]]) == Stored(bs) + multiset{v}
  {
    var bs' := bs[b := [v] + bs[b]];
    if b == 0 {
      assert bs'[1..] == bs[1..] && bs'[0] == [v] + bs[0];
      assert multiset([v] + bs[0]) == multiset{v} + multiset(bs[0]);
    } else {
      StoredPush(bs[1..], b - 1, v);
      assert bs'[1..] == bs[1..][b - 1 := [v] + bs[1..][b - 1]];
      assert bs'[0] == bs[0];
    }
  }

  /** `insert(player)`: `KeyExists` when a player with the same id is
      stored; otherwise the player goes to the head of bucket `h(id)`, the
      count grows by one, and the table doubles once the count reaches the
      number of buckets. */
  function Insert<V>(idOf: V -> int, t: Table<V>, v: V): (r: Result<Table<V>>)
    requires Valid(idOf, t) && idOf(v) >= 0
    ensures r.Failure? <==> exists w | w in Stored(t.buckets) :: idOf(w) == idOf(v)
    ensures r.Failure? ==> r.error == KeyExists
    ensures r.Success? ==>
      && Valid(idOf, r.value)
      && Stored(r.value.buckets) == Stored(t.buckets) + multiset{v}
      && r.value.size == t.size + 1
      && |r.value.buckets| == (if t.size + 1 >= |t.buckets| then 2 * |t.buckets| else |t.buckets|)
  {
    if Find(idOf, t, idOf(v)).Some? then Failure(KeyExists)
    else
      var t1 := Table(Push(idOf, t.buckets, v), t.size + 1);
      PushKeepsValid(idOf, t, v);
      if t1.size >= |t1.buckets| then Success(IncreaseSize(idOf, t1)) else Success(t1)
  }

  /** Puts an entry at the head of the bucket its id hashes to. */
  function Push<V>(idOf: V -> int, bs: seq<seq<V>>, v: V): (r: seq<seq<V>>)
    requires |bs| > 0 && Placed(idOf, bs) && idOf(v) >= 0
    ensures |r| == |bs| && Placed(idOf, r)
    ensures Stored(r) == Stored(bs) + multiset{v}
  {
    var b := H(idOf(v), |bs|);
    var r := bs[b := [v] + bs[b]];
    StoredPush(bs, b, v);
    assert Placed(idOf, r) by {
      forall c, k | 0 <= c < |r| && 0 <= k < |r[c]|
        ensures idOf(r[c][k]) >= 0 && H(idOf(r[c][k]), |r|) == c
      {
        if c == b && k > 0 {
          assert r[c][k] == bs[b][k - 1];
        }
      }
    }
    r
  }

  /** A new id pushed into a valid table keeps ids unique and the count
      right; only the bound on the count may need the rehash. */
  lemma PushKeepsValid<V>(idOf: V -> int, t: Table<V>, v: V)
    requires Valid(idOf, t) && idOf(v) >= 0
    requires forall w | w in Stored(t.buckets) :: idOf(w) != idOf(v)
    ensures var ms := Stored(Push(idOf, t.buckets, v));
      IdsUnique(idOf, ms) && |ms| == t.size + 1
  {
    var ms := Stored(t.buckets);
    assert v !in ms;
    var ms' := ms + multiset{v};
    forall w | w in ms'
      ensures ms'[w] == 1
    {
      if w == v {
        assert ms[w] == 0;
      }
    }
  }

  /** `increaseSize`: doubles the number of buckets and moves every entry to
      bucket `id % newSize`, walking the old buckets in order and each list
      from its head, pushing onto the head of the new list. */
  function IncreaseSize<V>(idOf: V -> int, t: Table<V>): (r: Table<V>)
    requires |t.buckets| >= StartingSize && Placed(idOf, t.buckets)
    ensures |r.buckets| == 2 * |t.buckets| && r.size == t.size
    ensures Placed(idOf, r.buckets)
    ensures Stored(r.buckets) == Stored(t.buckets)
  {
    var empty := seq(2 * |t.buckets|, _ => []);
    EmptyStored(empty);
    RehashFromStored(idOf, t.buckets, 0, empty);
    assert t.buckets[0..] == t.buckets;
    Table(RehashFrom(idOf, t.buckets, 0, empty), t.size)
  }

  /** Moves the lists of `old` from index `i` on into `arr`. */
  function RehashFrom<V>(idOf: V -> int, prev: seq<seq<V>>, i: int, arr: seq<seq<V>>): (r: seq<seq<V>>)
    requires 0 <= i <= |prev| && |arr| > 0 && Placed(idOf, prev) && Placed(idOf, arr)
    ensures |r| == |arr| && Placed(idOf, r)
    decreases |prev| - i
  {
    if i == |prev| then arr
    else
      assert forall k | 0 <= k < |prev[i]| :: idOf(prev[i][k]) >= 0;
      RehashFrom(idOf, prev, i + 1, Chain(idOf, prev[i], arr))
  }

  /** Pushes each entry of one list, head first, onto its new bucket. */
  function Chain<V>(idOf: V -> int, es: seq<V>, arr: seq<seq<V>>): (r: seq<seq<V>>)
    requires |arr| > 0 && Placed(idOf, arr) && forall k | 0 <= k < |es| :: idOf(es[k]) >= 0
    ensures |r| == |arr| && Placed(idOf, r)
    ensures Stored(r) == Stored(arr) + multiset(es)
  {
    if |es| == 0 then arr
    else
      assert forall k | 0 <= k < |es[1..]| :: es[1..][k] == es[k + 1];
      assert es == [es[0]] + es[1..];
      Chain(idOf, es[1..], Push(idOf, arr, es[0]))
  }

  lemma {:induction false} RehashFromStored<V>(idOf: V -> int, prev: seq<seq<V>>, i: int, arr: seq<seq<V>>)
    requires 0 <= i <= |prev| && |arr| > 0 && Placed(idOf, prev) && Placed(idOf, arr)
    ensures Stored(RehashFrom(idOf, prev, i, arr)) == Stored(arr) + Stored(prev[i..])
    decreases |prev| - i
  {
    if i < |prev| {
      assert forall k | 0 <= k < |prev[i]| :: idOf(prev[i][k]) >= 0;
      RehashFromStored(idOf, prev, i + 1, Chain(idOf, prev[i], arr));
      assert prev[i..][1..] == prev[i + 1..];
    }
  }

  /** After a successful `insert`, `find` of the new id returns the new
      player, and every other id finds what it found before. */
  lemma InsertThenFind<V>(idOf: V -> int, t: Table<V>, v: V, id: int)
    requires Valid(idOf, t) && idOf(v) >= 0 && id >= 0
    requires Insert(idOf, t, v).Success?
    ensures Find(idOf, Insert(idOf, t, v).value, idOf(v)) == Some(v)
    ensures id != idOf(v) ==> Find(idOf, Insert(idOf, t, v).value, id) == Find(idOf, t, id)
  {
    FindAfterAdd(idOf, t, Insert(idOf, t, v).value, v, id);
  }

  /** `find` on a valid table that holds one more entry than another. */
  lemma FindAfterAdd<V>(idOf: V -> int, t: Table<V>, t': Table<V>, v: V, id: int)
    requires Valid(idOf, t) && Valid(idOf, t') && idOf(v) >= 0 && id >= 0
    requires Stored(t'.buckets) == Stored(t.buckets) + multiset{v}
    ensures Find(idOf, t', idOf(v)) == Some(v)
    ensures id != idOf(v) ==> Find(idOf, t', id) == Find(idOf, t, id)
  {
    assert v in Stored(t'.buckets);
    if id != idOf(v) {
      var a, b := Find(idOf, t', id), Find(idOf, t, id);
      if a.Some? {
        assert a.value in Stored(t.buckets);
      }
    }
  }
}
