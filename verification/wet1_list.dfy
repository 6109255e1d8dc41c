/** `listInsert` and `listRemove` (Wet1/worldcup23a1.cpp): the tree nodes of
    the sorted players and of the playable teams are also threaded on a
    doubly linked list in tree order, so that a node's neighbours are one
    step away. The player and team versions are the same code; nodes are
    named by id and the links of each node are a map entry. */
module Wet1List {
  import opened Wrappers

  datatype Link = Link(prev: Option<int>, next: Option<int>)

  /** Node ids are pairwise distinct along the sequence. */
  ghost predicate Distinct(s: seq<int>) {
    forall a, b :: 0 <= a < b < |s| ==> s[a] != s[b]
  }

  lemma DistinctAt(s: seq<int>, a: int, b: int)
    requires Distinct(s) && 0 <= a < |s| && 0 <= b < |s|
    ensures s[a] == s[b] <==> a == b
  {
    if a < b {
      assert s[a] != s[b];
    } else if b < a {
      assert s[b] != s[a];
    }
  }

  /** The links thread exactly the sequence s, in order: each node points
      back to the one before it and on to the one after it, and the ends
      point nowhere. Links of nodes off the sequence do not matter. */
  ghost predicate Threads(links: map<int, Link>, s: seq<int>) {
    && Distinct(s)
    && (forall k | 0 <= k < |s| :: s[k] in links)
    && (forall k | 0 <= k < |s| :: LinkedAt(links, s, k))
  }

  /** The node at index k is present and linked to its neighbours. */
  ghost predicate LinkedAt(links: map<int, Link>, s: seq<int>, k: int)
    requires 0 <= k < |s|
  {
    s[k] in links && links[s[k]] == Link(Before(s, k), After(s, k))
  }

  /** The node before index k, if any. */
  function Before(s: seq<int>, k: int): Option<int>
    requires 0 <= k < |s|
  {
    if k == 0 then None else Some(s[k - 1])
  }

  /** The node after index k, if any. */
  function After(s: seq<int>, k: int): Option<int>
    requires 0 <= k < |s|
  {
    if k == |s| - 1 then None else Some(s[k + 1])
  }

  /** Points the node `at`, when there is one, at a new neighbour on one
      side. */
  function SetPrev(links: map<int, Link>, at: Option<int>, to: Option<int>): (r: map<int, Link>)
    ensures r.Keys == links.Keys
    ensures forall y | y in links :: r[y] == (if at == Some(y) then links[y].(prev := to) else links[y])
  {
    if at.Some? && at.value in links then links[at.value := links[at.value].(prev := to)] else links
  }

  function SetNext(links: map<int, Link>, at: Option<int>, to: Option<int>): (r: map<int, Link>)
    ensures r.Keys == links.Keys
    ensures forall y | y in links :: r[y] == (if at == Some(y) then links[y].(next := to) else links[y])
  {
    if at.Some? && at.value in links then links[at.value := links[at.value].(next := to)] else links
  }

  /** `listRemove`: the neighbours of x are linked to each other. The links
      of x itself are left as they were. */
  function ListRemove(links: map<int, Link>, x: int): (r: map<int, Link>)
    requires x in links
    ensures r.Keys == links.Keys
    ensures forall y | y in links && Some(y) != links[x].prev && Some(y) != links[x].next :: r[y] == links[y]
  {
    var l := links[x];
    SetNext(SetPrev(links, l.next, l.prev), l.prev, l.next)
  }

  /** `listInsert`: x gets the tree's successor and predecessor as its
      neighbours, and they get x. */
  function ListInsert(links: map<int, Link>, x: int, previous: Option<int>, next: Option<int>): (r: map<int, Link>)
    ensures r.Keys == links.Keys + {x}
    ensures previous != Some(x) && next != Some(x) ==> r[x] == Link(previous, next)
    ensures forall y | y in links && y != x && Some(y) != previous && Some(y) != next :: r[y] == links[y]
  {
    SetNext(SetPrev(links[x := Link(previous, next)], next, Some(x)), previous, Some(x))
  }

  /** What `listRemove` does to the links of one other node of the list:
      the node after s[i] now points back past it, the node before it points
      on past it, and every other node keeps its links. */
  lemma RemoveLinkAt(links: map<int, Link>, s: seq<int>, i: int, j: int)
    requires Threads(links, s) && 0 <= i < |s| && 0 <= j < |s| && j != i
    ensures var r := ListRemove(links, s[i]);
      && s[j] in r
      && r[s[j]].prev == (if j == i + 1 then Before(s, i) else Before(s, j))
      && r[s[j]].next == (if j == i - 1 then After(s, i) else After(s, j))
  {
    assert LinkedAt(links, s, i) && LinkedAt(links, s, j);
    DistinctAt(s, j, i);
    if i + 1 < |s| {
      DistinctAt(s, j, i + 1);
    }
    if i > 0 {
      DistinctAt(s, j, i - 1);
    }
  }

  /** Removing the node at index i leaves the rest threaded in order. */
  lemma RemoveUnthreads(links: map<int, Link>, s: seq<int>, i: int)
    requires Threads(links, s) && 0 <= i < |s|
    ensures Threads(ListRemove(links, s[i]), s[..i] + s[i + 1..])
  {
    var r := ListRemove(links, s[i]);
    var t := s[..i] + s[i + 1..];
    forall k | 0 <= k < |t|
      ensures LinkedAt(r, t, k)
    {
      var j := if k < i then k else k + 1;
      assert t[k] == s[j];
      RemoveLinkAt(links, s, i, j);
      if k > 0 {
        assert t[k - 1] == s[if k - 1 < i then k - 1 else k];
      }
      if k < |t| - 1 {
        assert t[k + 1] == s[if k + 1 < i then k + 1 else k + 2];
      }
    }
    forall a, b | 0 <= a < b < |t|
      ensures t[a] != t[b]
    {
      DistinctAt(s, if a < i then a else a + 1, if b < i then b else b + 1);
    }
  }

  /** Inserting x between the nodes at i - 1 and i, which is where the
      tree's predecessor and successor of x sit, threads x in at index i. */
  lemma InsertThreads(links: map<int, Link>, s: seq<int>, i: int, x: int)
    requires Threads(links, s) && 0 <= i <= |s| && x !in s
    ensures var previous := if i == 0 then None else Some(s[i - 1]);
      var next := if i == |s| then None else Some(s[i]);
      Threads(ListInsert(links, x, previous, next), s[..i] + [x] + s[i..])
  {
    var previous := if i == 0 then None else Some(s[i - 1]);
    var next := if i == |s| then None else Some(s[i]);
    var r := ListInsert(links, x, previous, next);
    var t := s[..i] + [x] + s[i..];
    forall k | 0 <= k < |t|
      ensures LinkedAt(r, t, k)
    {
      if k != i {
        var j := if k < i then k else k - 1;
        assert t[k] == s[j] && s[j] != x;
        assert LinkedAt(links, s, j);
        if i < |s| {
          DistinctAt(s, j, i);
        }
        if i > 0 {
          DistinctAt(s, j, i - 1);
        }
        if k > 0 {
          assert t[k - 1] == (if k - 1 == i then x else s[if k - 1 < i then k - 1 else k - 2]);
        }
        if k < |t| - 1 {
          assert t[k + 1] == (if k + 1 == i then x else s[if k + 1 < i then k + 1 else k]);
        }
      } else {
        assert next != Some(x) && previous != Some(x);
      }
    }
    forall a, b | 0 <= a < b < |t|
      ensures t[a] != t[b]
    {
      if a != i && b != i {
        DistinctAt(s, if a < i then a else a - 1, if b < i then b else b - 1);
      }
    }
  }

  /** Taking a node out and putting it back at the same place restores the
      threading, which is how `update_player_stats` re-links a player whose
      rank did not change. */
  lemma RemoveThenInsert(links: map<int, Link>, s: seq<int>, i: int)
    requires Threads(links, s) && 0 <= i < |s|
    ensures var rest := s[..i] + s[i + 1..];
      var previous := if i == 0 then None else Some(rest[i - 1]);
      var next := if i == |rest| then None else Some(rest[i]);
      Threads(ListInsert(ListRemove(links, s[i]), s[i], previous, next), s)
  {
    var rest := s[..i] + s[i + 1..];
    RemoveUnthreads(links, s, i);
    forall k | 0 <= k < |rest|
      ensures rest[k] != s[i]
    {
      DistinctAt(s, if k < i then k else k + 1, i);
    }
    InsertThreads(ListRemove(links, s[i]), rest, i, s[i]);
    assert rest[..i] + [s[i]] + rest[i..] == s;
  }
}
