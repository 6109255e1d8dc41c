/** The union-find forest of Wet2 (Wet2/UnionFind.cpp, the query side in
    Wet2/Player.cpp), modelled as a map from player id to player record.

    Each player keeps two lazy deltas. A player's games played is the sum of
    `gamesPlayed` over the path from the player up to its root, the root
    included. Its partial spirit is the product of `spirit` taken from the
    root down to the player; the group is not commutative, so the order
    matters. `find` compresses the path and rewrites the deltas so that
    nothing resolved changes. `unite` is union by size and rewrites the
    absorbed root's deltas. */
module UnionFind {
  import opened Wrappers
  import opened Group
  import opened Wet2Player
  import opened Wet2Team

  type State<G> = map<int, Player<G>>

  /** Every parent is a stored player with a strictly larger `size`, so
      following parents always ends at a root; roots and only roots have no
      parent. */
  ghost predicate WF<G>(uf: State<G>) {
    forall x {:trigger Linked(uf, x)} | x in uf :: Linked(uf, x)
  }

  /** The part of `WF` about one player. */
  ghost predicate Linked<G>(uf: State<G>, x: int)
    requires x in uf
  {
    && uf[x].size >= 1
    && (uf[x].isRoot <==> uf[x].parent.None?)
    && (!uf[x].isRoot ==> uf[x].parent.value in uf && uf[uf[x].parent.value].size > uf[x].size)
  }

  /** The players with a larger `size`: shrinks strictly towards the root. */
  ghost function Above<G>(uf: State<G>, x: int): set<int>
    requires x in uf
  {
    set y | y in uf && uf[y].size > uf[x].size
  }

  lemma AboveShrinks<G>(uf: State<G>, x: int)
    requires WF(uf) && x in uf && !uf[x].isRoot
    ensures uf[x].parent.Some? && uf[x].parent.value in uf && uf[uf[x].parent.value].size > uf[x].size
    ensures |Above(uf, uf[x].parent.value)| < |Above(uf, x)|
  {
    assert Linked(uf, x);
    var p := uf[x].parent.value;
    var withP := Above(uf, p) + {p};
    assert p !in Above(uf, p);
    assert |withP| == |Above(uf, p)| + 1;
    assert Above(uf, x) == withP + (Above(uf, x) - withP);
  }

  /** The root of a player's group: what `find` returns. */
  ghost function Rep<G>(uf: State<G>, x: int): (r: int)
    requires WF(uf) && x in uf
    ensures r in uf && uf[r].isRoot
    ensures !uf[x].isRoot ==> uf[r].size > uf[x].size
    decreases |Above(uf, x)|
  {
    if uf[x].isRoot then x
    else
      AboveShrinks(uf, x);
      Rep(uf, uf[x].parent.value)
  }

  /** The games a player has actually played: its delta plus every ancestor's. */
  ghost function Games<G>(uf: State<G>, x: int): int
    requires WF(uf) && x in uf
    decreases |Above(uf, x)|
  {
    if uf[x].isRoot then uf[x].gamesPlayed
    else
      AboveShrinks(uf, x);
      uf[x].gamesPlayed + Games(uf, uf[x].parent.value)
  }

  /** A player's partial spirit: the product of the spirits from the root
      down to the player. */
  ghost function Spirit<G>(ops: GroupOps<G>, uf: State<G>, x: int): G
    requires WF(uf) && x in uf
    decreases |Above(uf, x)|
  {
    if uf[x].isRoot then uf[x].spirit
    else
      AboveShrinks(uf, x);
      ops.mul(Spirit(ops, uf, uf[x].parent.value), uf[x].spirit)
  }

  /** The players from `x` up to its root, in that order. */
  ghost function Path<G>(uf: State<G>, x: int): (p: seq<int>)
    requires WF(uf) && x in uf
    ensures |p| >= 1 && p[0] == x && p[|p| - 1] == Rep(uf, x)
    ensures forall i | 0 <= i < |p| :: p[i] in uf
    decreases |Above(uf, x)|
  {
    if uf[x].isRoot then [x]
    else
      AboveShrinks(uf, x);
      [x] + Path(uf, uf[x].parent.value)
  }

  /** The `i`-th player of a path: it has `x`'s root, it is a root only at
      the end, and otherwise its parent is the next player, higher in size,
      and its games played are its delta plus the next player's. */
  lemma {:induction false} PathAt<G>(uf: State<G>, x: int, i: int)
    requires WF(uf) && x in uf && 0 <= i < |Path(uf, x)|
    ensures var P := Path(uf, x);
      && Rep(uf, P[i]) == Rep(uf, x)
      && (uf[P[i]].isRoot <==> i == |P| - 1)
      && (i < |P| - 1 ==>
            && uf[P[i]].parent == Some(P[i + 1]) && uf[P[i]].size < uf[P[i + 1]].size
            && Games(uf, P[i]) == uf[P[i]].gamesPlayed + Games(uf, P[i + 1]))
    decreases |Above(uf, x)|
  {
    assert Linked(uf, x);
    if !uf[x].isRoot {
      AboveShrinks(uf, x);
      var q := uf[x].parent.value;
      if i > 0 {
        PathAt(uf, q, i - 1);
      } else {
        assert Linked(uf, q);
      }
    }
  }

  /** The partial spirit steps along the path as the games played do. */
  lemma PathSpiritStep<G>(ops: GroupOps<G>, uf: State<G>, x: int, i: int)
    requires WF(uf) && x in uf && 0 <= i < |Path(uf, x)| - 1
    ensures var P := Path(uf, x);
      Spirit(ops, uf, P[i]) == ops.mul(Spirit(ops, uf, P[i + 1]), uf[P[i]].spirit)
  {
    PathAt(uf, x, i);
  }

  /** Sizes strictly increase along a path. */
  lemma {:induction false} PathIncreasing<G>(uf: State<G>, x: int, i: int, j: int)
    requires WF(uf) && x in uf && 0 <= i < j < |Path(uf, x)|
    ensures uf[Path(uf, x)[i]].size < uf[Path(uf, x)[j]].size
    decreases j
  {
    PathAt(uf, x, j - 1);
    if i < j - 1 {
      PathIncreasing(uf, x, i, j - 1);
    }
  }

  /** A player occurs on a path once. */
  lemma PathDistinct<G>(uf: State<G>, x: int, i: int)
    requires WF(uf) && x in uf && 0 <= i < |Path(uf, x)|
    ensures forall j | 0 <= j < |Path(uf, x)| && j != i :: Path(uf, x)[j] != Path(uf, x)[i]
  {
    forall j | 0 <= j < |Path(uf, x)| && j != i
      ensures Path(uf, x)[j] != Path(uf, x)[i]
    {
      if j < i {
        PathIncreasing(uf, x, j, i);
      } else {
        PathIncreasing(uf, x, i, j);
      }
    }
  }

  /** `acc` multiplied on the left by the spirits of the first `n` players
      from `x` upwards, each later one further left: what the loops of `find`
      accumulate, starting from the neutral element. */
  ghost function SpiritAcc<G>(ops: GroupOps<G>, uf: State<G>, x: int, n: int, acc: G): G
    requires WF(uf) && x in uf && 0 <= n < |Path(uf, x)|
    decreases n
  {
    if n == 0 then acc
    else
      assert Linked(uf, x);
      SpiritAcc(ops, uf, uf[x].parent.value, n - 1, ops.mul(uf[x].spirit, acc))
  }

  /** The product of the spirits of the first `i` players of `x`'s path. */
  ghost function PathProduct<G>(ops: GroupOps<G>, uf: State<G>, x: int, i: int): G
    requires WF(uf) && x in uf && 0 <= i < |Path(uf, x)|
  {
    SpiritAcc(ops, uf, x, i, ops.neutral)
  }

  /** One more player of the path multiplies the product on the left. */
  lemma {:induction false} SpiritAccStep<G>(ops: GroupOps<G>, uf: State<G>, x: int, i: int, acc: G)
    requires WF(uf) && x in uf && 0 <= i < |Path(uf, x)| - 1
    ensures SpiritAcc(ops, uf, x, i + 1, acc) == ops.mul(uf[Path(uf, x)[i]].spirit, SpiritAcc(ops, uf, x, i, acc))
    decreases i
  {
    assert Linked(uf, x);
    if i > 0 {
      var p := uf[x].parent.value;
      SpiritAccStep(ops, uf, p, i - 1, ops.mul(uf[x].spirit, acc));
      assert Path(uf, x)[i] == Path(uf, p)[i - 1];
    }
  }

  /** The partial spirit of `x` is that of its `i`-th ancestor times the
      product of the spirits below it. */
  lemma {:induction false} SpiritAlongPath<G(!new)>(ops: GroupOps<G>, uf: State<G>, x: int, i: int)
    requires IsGroup(ops) && WF(uf) && x in uf && 0 <= i < |Path(uf, x)|
    ensures Spirit(ops, uf, x) == ops.mul(Spirit(ops, uf, Path(uf, x)[i]), PathProduct(ops, uf, x, i))
  {
    var P := Path(uf, x);
    if i == 0 {
      assert NeutralAt(ops, Spirit(ops, uf, x));
    } else {
      SpiritAlongPath(ops, uf, x, i - 1);
      PathSpiritStep(ops, uf, x, i - 1);
      SpiritAccStep(ops, uf, x, i - 1, ops.neutral);
      var s := uf[P[i - 1]].spirit;
      calc {
        Spirit(ops, uf, x);
        ops.mul(Spirit(ops, uf, P[i - 1]), PathProduct(ops, uf, x, i - 1));
        ops.mul(ops.mul(Spirit(ops, uf, P[i]), s), PathProduct(ops, uf, x, i - 1));
        { assert AssocAt(ops, Spirit(ops, uf, P[i]), s, PathProduct(ops, uf, x, i - 1)); }
        ops.mul(Spirit(ops, uf, P[i]), ops.mul(s, PathProduct(ops, uf, x, i - 1)));
      }
    }
  }

  /** What `find` leaves at a player of the compressed path: the parent is
      the root, and the games delta is rewritten so that adding the root's
      gives back the player's games played. */
  ghost predicate Compressed<G>(uf: State<G>, u: State<G>, y: int, root: int)
    requires WF(uf) && y in uf && y in u && root in uf
  {
    && Rep(uf, y) == root && !uf[y].isRoot
    && u[y] == uf[y].(parent := Some(root), gamesPlayed := u[y].gamesPlayed, spirit := u[y].spirit)
    && Games(uf, y) == uf[root].gamesPlayed + u[y].gamesPlayed
  }

  /** `find`: returns the root of `x`'s group and re-hangs every other player
      of `x`'s path directly below it, rewriting its deltas; no player off the
      path, and not the root, is touched. No player's root or games played
      changes, and when `permutation_t` is a group no partial spirit does. */
  method Find<G(!new)>(ops: GroupOps<G>, uf: State<G>, x: int) returns (u: State<G>, root: int)
    requires WF(uf) && x in uf
    ensures root == Rep(uf, x)
    ensures WF(u) && u.Keys == uf.Keys && u[root] == uf[root]
    ensures forall y | y in uf && y !in Path(uf, x) :: u[y] == uf[y]
    ensures forall j | 0 <= j < |Path(uf, x)| - 1 ::
      && Compressed(uf, u, Path(uf, x)[j], root)
      && u[Path(uf, x)[j]].spirit
         == ops.mul(PathProduct(ops, uf, x, |Path(uf, x)| - 1), ops.inv(PathProduct(ops, uf, x, j)))
    ensures forall y | y in uf :: Rep(u, y) == Rep(uf, y) && Games(u, y) == Games(uf, y)
    ensures IsGroup(ops) ==> forall j | 0 <= j < |Path(uf, x)| - 1 ::
      Spirit(ops, uf, Path(uf, x)[j]) == ops.mul(uf[root].spirit, u[Path(uf, x)[j]].spirit)
    ensures IsGroup(ops) ==> forall y | y in uf :: Spirit(ops, u, y) == Spirit(ops, uf, y)
  {
    var sumGames, sumSpirit;
    root, sumGames, sumSpirit := FindRoot(ops, uf, x);
    u := CompressPath(ops, uf, x, root, sumGames, sumSpirit);
    FindFinish(uf, u, Path(uf, x), root);
    if IsGroup(ops) {
      FindSpiritDeltas(ops, uf, u, x);
      FindKeepsSpirit(ops, uf, u, Path(uf, x), root);
    }
  }

  /** `find` is idempotent: the root it returns is its own root, so finding
      from the answer, before or after compression, gives the answer back. */
  lemma FindIdempotent<G>(uf: State<G>, u: State<G>, x: int)
    requires WF(uf) && x in uf && WF(u) && u.Keys == uf.Keys
    requires forall y | y in uf :: Rep(u, y) == Rep(uf, y)
    ensures Rep(uf, Rep(uf, x)) == Rep(uf, x)
    ensures Rep(u, Rep(u, x)) == Rep(uf, x) && Path(u, Rep(uf, x)) == [Rep(uf, x)]
  {
    var r := Rep(uf, x);
    assert Rep(u, x) == r;
    assert Path(u, r) == [r];
  }

  /** The first loop of `find`: up to the root, summing the games deltas of
      the players below it and multiplying their spirits, each later one on
      the left. */
  method FindRoot<G>(ops: GroupOps<G>, uf: State<G>, x: int) returns (root: int, sumGames: int, sumSpirit: G)
    requires WF(uf) && x in uf
    ensures root == Rep(uf, x) && root == Path(uf, x)[|Path(uf, x)| - 1]
    ensures sumGames == Games(uf, x) - uf[root].gamesPlayed
    ensures sumSpirit == PathProduct(ops, uf, x, |Path(uf, x)| - 1)
  {
    ghost var P := Path(uf, x);
    ghost var i := 0;
    var cur := x;
    sumGames := 0;
    sumSpirit := ops.neutral;
    PathAt(uf, x, 0);
    while !uf[cur].isRoot
      invariant 0 <= i < |P| && cur == P[i]
      invariant uf[cur].isRoot <==> i == |P| - 1
      invariant Games(uf, x) == sumGames + Games(uf, cur)
      invariant sumSpirit == PathProduct(ops, uf, x, i)
      decreases |P| - i
    {
      PathAt(uf, x, i);
      SpiritAccStep(ops, uf, x, i, ops.neutral);
      sumGames := sumGames + uf[cur].gamesPlayed;
      sumSpirit := ops.mul(uf[cur].spirit, sumSpirit);
      cur := uf[cur].parent.value;
      i := i + 1;
      PathAt(uf, x, i);
    }
    root := cur;
  }

  /** The second loop of `find`: every player below the root is hung
      directly from it, with its games delta the sum of the deltas from it
      up to the root's exclusive, and its spirit delta `sumSpirit` times the
      inverse of the product below it. */
  method CompressPath<G>(ops: GroupOps<G>, uf: State<G>, x: int, root: int, sumGames: int, sumSpirit: G)
    returns (u: State<G>)
    requires WF(uf) && x in uf && root == Rep(uf, x) && sumGames == Games(uf, x) - uf[root].gamesPlayed
    ensures u.Keys == uf.Keys && u[root] == uf[root]
    ensures forall y | y in uf && y !in Path(uf, x) :: u[y] == uf[y]
    ensures forall j | 0 <= j < |Path(uf, x)| - 1 ::
      && Compressed(uf, u, Path(uf, x)[j], root)
      && u[Path(uf, x)[j]].spirit == ops.mul(sumSpirit, ops.inv(PathProduct(ops, uf, x, j)))
  {
    ghost var P := Path(uf, x);
    u := uf;
    var cur := x;
    ghost var i := 0;
    var subGames := 0;
    var subSpirit := ops.neutral;
    while !u[cur].isRoot
      invariant Compressing(ops, uf, x, sumSpirit, u, i, subGames, subSpirit) && cur == P[i]
      decreases |P| - i
    {
      u, cur, subGames, subSpirit := CompressOne(ops, uf, x, root, sumGames, sumSpirit, u, cur, i, subGames, subSpirit);
      i := i + 1;
    }
    PathAt(uf, x, i);
    forall j | 0 <= j < |P| - 1
      ensures u[P[j]].spirit == ops.mul(sumSpirit, ops.inv(PathProduct(ops, uf, x, j)))
    {
      DeltaAt(ops, uf, x, sumSpirit, |P|, j);
    }
  }

  /** The state of the second loop of `find` before the `i`-th player of the
      path: the players below it are re-hung, the rest untouched, and the
      running sums cover the players below it. */
  ghost predicate Compressing<G>(ops: GroupOps<G>, uf: State<G>, x: int, sumSpirit: G, u: State<G>, i: int,
                                 subGames: int, subSpirit: G)
    requires WF(uf) && x in uf
  {
    var P := Path(uf, x);
    && 0 <= i < |P| && u.Keys == uf.Keys
    && (forall j | 0 <= j < i ::
          Compressed(uf, u, P[j], P[|P| - 1]) && u[P[j]].spirit == Deltas(ops, uf, x, sumSpirit, |P|)[j])
    && (forall j | i <= j < |P| :: u[P[j]] == uf[P[j]])
    && (forall y | y in uf && y !in P :: u[y] == uf[y])
    && subGames == Games(uf, x) - Games(uf, P[i])
    && subSpirit == PathProduct(ops, uf, x, i)
  }

  /** One turn of the second loop of `find`. */
  method CompressOne<G>(ops: GroupOps<G>, uf: State<G>, x: int, root: int, sumGames: int, sumSpirit: G,
                        u: State<G>, cur: int, ghost i: int, subGames: int, subSpirit: G)
    returns (u': State<G>, cur': int, subGames': int, subSpirit': G)
    requires WF(uf) && x in uf && root == Rep(uf, x) && sumGames == Games(uf, x) - uf[root].gamesPlayed
    requires Compressing(ops, uf, x, sumSpirit, u, i, subGames, subSpirit)
    requires cur == Path(uf, x)[i] && !u[cur].isRoot
    ensures Compressing(ops, uf, x, sumSpirit, u', i + 1, subGames', subSpirit') && cur' == Path(uf, x)[i + 1]
  {
    ghost var P := Path(uf, x);
    PathAt(uf, x, i);
    PathAt(uf, x, i + 1);
    SpiritAccStep(ops, uf, x, i, ops.neutral);
    PathDistinct(uf, x, i);
    DeltaAt(ops, uf, x, sumSpirit, |P|, i);
    CompressStep(uf, u, P, i, sumGames - subGames, Deltas(ops, uf, x, sumSpirit, |P|));
    cur' := u[cur].parent.value;
    u' := u[cur := u[cur].(parent := Some(root), gamesPlayed := sumGames - subGames,
                           spirit := ops.mul(sumSpirit, ops.inv(subSpirit)))];
    subGames' := subGames + u[cur].gamesPlayed;
    subSpirit' := ops.mul(u[cur].spirit, subSpirit);
  }

  /** The spirit deltas the second loop of `find` writes along the first
      `n` players of the path: `top` times the inverse of the product below. */
  ghost function Deltas<G>(ops: GroupOps<G>, uf: State<G>, x: int, top: G, n: int): (r: seq<G>)
    requires WF(uf) && x in uf && 0 <= n <= |Path(uf, x)|
    ensures |r| == n
  {
    if n == 0 then [] else Deltas(ops, uf, x, top, n - 1) + [ops.mul(top, ops.inv(PathProduct(ops, uf, x, n - 1)))]
  }

  lemma {:induction false} DeltaAt<G>(ops: GroupOps<G>, uf: State<G>, x: int, top: G, n: int, j: int)
    requires WF(uf) && x in uf && 0 <= j < n <= |Path(uf, x)|
    ensures Deltas(ops, uf, x, top, n)[j] == ops.mul(top, ops.inv(PathProduct(ops, uf, x, j)))
  {
    if j < n - 1 {
      DeltaAt(ops, uf, x, top, n - 1, j);
    }
  }

  /** The second loop of `find` re-hangs the `i`-th player of the path P:
      the players below it stay compressed, it becomes compressed with the
      spirit delta `want[i]`, and the players above it and off the path are
      still untouched. Stated for any sequence of distinct players, so that
      the path itself need not be unfolded here. */
  lemma CompressStep<G>(uf: State<G>, u: State<G>, P: seq<int>, i: int, games: int, want: seq<G>)
    requires WF(uf) && u.Keys == uf.Keys && 0 <= i < |P| - 1 && |want| == |P|
    requires forall k | 0 <= k < |P| :: P[k] in uf
    requires forall j | 0 <= j < |P| && j != i :: P[j] != P[i]
    requires Rep(uf, P[i]) == P[|P| - 1] && !uf[P[i]].isRoot
    requires Games(uf, P[i]) == uf[P[|P| - 1]].gamesPlayed + games
    requires forall j | 0 <= j < i :: Compressed(uf, u, P[j], P[|P| - 1]) && u[P[j]].spirit == want[j]
    requires forall j | i <= j < |P| :: u[P[j]] == uf[P[j]]
    requires forall y | y in uf && y !in P :: u[y] == uf[y]
    ensures var u' := u[P[i] := u[P[i]].(parent := Some(P[|P| - 1]), gamesPlayed := games, spirit := want[i])];
      && (forall j | 0 <= j < i + 1 :: Compressed(uf, u', P[j], P[|P| - 1]) && u'[P[j]].spirit == want[j])
      && (forall j | i + 1 <= j < |P| :: u'[P[j]] == uf[P[j]])
      && (forall y | y in uf && y !in P :: u'[y] == uf[y])
  {
    var root := P[|P| - 1];
    var u' := u[P[i] := u[P[i]].(parent := Some(root), gamesPlayed := games, spirit := want[i])];
    forall j | 0 <= j < i + 1
      ensures Compressed(uf, u', P[j], root) && u'[P[j]].spirit == want[j]
    {
      if j < i {
        assert u'[P[j]] == u[P[j]];
      }
    }
  }

  /** When the second loop of `find` reaches the root, the whole path below
      it is compressed: the forest stays well formed, and roots and games
      played are as before. */
  lemma FindFinish<G>(uf: State<G>, u: State<G>, P: seq<int>, root: int)
    requires WF(uf) && u.Keys == uf.Keys && root in uf && uf[root].isRoot
    requires |P| >= 1 && P[|P| - 1] == root && forall j | 0 <= j < |P| :: P[j] in uf
    requires forall j | 0 <= j < |P| - 1 :: Compressed(uf, u, P[j], root)
    requires u[root] == uf[root]
    requires forall y | y in uf && y !in P :: u[y] == uf[y]
    ensures WF(u)
    ensures forall y | y in uf :: Rep(u, y) == Rep(uf, y) && Games(u, y) == Games(uf, y)
  {
    forall y | y in uf
      ensures Rehung(uf, u, y, root)
    {
      if y in P {
        var j :| 0 <= j < |P| && P[j] == y;
      }
    }
    CompressionKeepsWF(uf, u, root);
    forall y | y in uf
      ensures Rep(u, y) == Rep(uf, y) && Games(u, y) == Games(uf, y)
    {
      CompressionKeepsResolved(uf, u, root, y);
    }
  }

  /** With the group laws, the spirit deltas `find` writes keep every partial
      spirit. */
  lemma FindKeepsSpirit<G(!new)>(ops: GroupOps<G>, uf: State<G>, u: State<G>, P: seq<int>, root: int)
    requires IsGroup(ops) && WF(uf) && WF(u) && u.Keys == uf.Keys && root in uf && uf[root].isRoot
    requires |P| >= 1 && P[|P| - 1] == root && forall j | 0 <= j < |P| :: P[j] in uf
    requires forall j | 0 <= j < |P| - 1 ::
      && Compressed(uf, u, P[j], root)
      && Spirit(ops, uf, P[j]) == ops.mul(uf[root].spirit, u[P[j]].spirit)
    requires u[root] == uf[root]
    requires forall y | y in uf && y !in P :: u[y] == uf[y]
    ensures forall y | y in uf :: Spirit(ops, u, y) == Spirit(ops, uf, y)
  {
    forall y | y in uf
      ensures RehungKeepingSpirit(ops, uf, u, y, root)
    {
      if y in P {
        var j :| 0 <= j < |P| && P[j] == y;
      }
    }
    forall y | y in uf
      ensures Spirit(ops, u, y) == Spirit(ops, uf, y)
    {
      CompressionKeepsSpirit(ops, uf, u, root, y);
    }
  }

  /** The deltas written by `find`, multiplied on the left by the root's
      spirit, give back the partial spirits. */
  lemma FindSpiritDeltas<G(!new)>(ops: GroupOps<G>, uf: State<G>, u: State<G>, x: int)
    requires IsGroup(ops) && WF(uf) && x in uf && u.Keys == uf.Keys
    requires var P := Path(uf, x);
      forall j | 0 <= j < |P| - 1 ::
        u[P[j]].spirit == ops.mul(PathProduct(ops, uf, x, |P| - 1), ops.inv(PathProduct(ops, uf, x, j)))
    ensures var P := Path(uf, x);
      forall j | 0 <= j < |P| - 1 :: Spirit(ops, uf, P[j]) == ops.mul(uf[P[|P| - 1]].spirit, u[P[j]].spirit)
  {
    var P := Path(uf, x);
    forall j | 0 <= j < |P| - 1
      ensures Spirit(ops, uf, P[j]) == ops.mul(uf[P[|P| - 1]].spirit, u[P[j]].spirit)
    {
      CompressedSpirit(ops, uf, x, j);
    }
  }

  /** The spirit delta `find` writes at the `j`-th player of the path,
      multiplied on the left by the root's spirit, is the player's partial
      spirit. */
  lemma CompressedSpirit<G(!new)>(ops: GroupOps<G>, uf: State<G>, x: int, j: int)
    requires IsGroup(ops) && WF(uf) && x in uf && 0 <= j < |Path(uf, x)| - 1
    ensures var P := Path(uf, x);
      Spirit(ops, uf, P[j])
      == ops.mul(uf[P[|P| - 1]].spirit, ops.mul(PathProduct(ops, uf, x, |P| - 1), ops.inv(PathProduct(ops, uf, x, j))))
  {
    var P := Path(uf, x);
    var root := P[|P| - 1];
    SpiritAlongPath(ops, uf, x, j);
    SpiritAlongPath(ops, uf, x, |P| - 1);
    assert Spirit(ops, uf, root) == uf[root].spirit;
    RightDivide(ops, uf[root].spirit, PathProduct(ops, uf, x, |P| - 1), Spirit(ops, uf, P[j]), PathProduct(ops, uf, x, j));
  }

  /** After a compression, a player is either re-hung below the root or
      untouched. */
  ghost predicate Rehung<G>(uf: State<G>, u: State<G>, y: int, root: int)
    requires WF(uf) && y in uf && y in u && root in uf
  {
    Compressed(uf, u, y, root) || u[y] == uf[y]
  }

  /** The same, with the re-hung player's new delta times the root's spirit
      giving back its partial spirit. */
  ghost predicate RehungKeepingSpirit<G>(ops: GroupOps<G>, uf: State<G>, u: State<G>, y: int, root: int)
    requires WF(uf) && y in uf && y in u && root in uf
  {
    || (Compressed(uf, u, y, root) && Spirit(ops, uf, y) == ops.mul(uf[root].spirit, u[y].spirit))
    || u[y] == uf[y]
  }

  lemma CompressionKeepsWF<G>(uf: State<G>, u: State<G>, root: int)
    requires WF(uf) && u.Keys == uf.Keys && root in uf && uf[root].isRoot
    requires forall y | y in uf :: Rehung(uf, u, y, root)
    ensures WF(u)
  {
    forall y | y in u
      ensures Linked(u, y)
    {
      assert Linked(uf, y);
      if Compressed(uf, u, y, root) {
        assert u[root] == uf[root];
      } else if !uf[y].isRoot {
        var p := uf[y].parent.value;
        assert u[p].size == uf[p].size;
      }
    }
  }

  lemma {:induction false} CompressionKeepsResolved<G>(uf: State<G>, u: State<G>, root: int, y: int)
    requires WF(uf) && WF(u) && u.Keys == uf.Keys && root in uf && uf[root].isRoot
    requires forall z | z in uf :: Rehung(uf, u, z, root)
    requires y in uf
    ensures Rep(u, y) == Rep(uf, y) && Games(u, y) == Games(uf, y)
    decreases |Above(u, y)|
  {
    assert u[root] == uf[root];
    if Compressed(uf, u, y, root) {
    } else if !uf[y].isRoot {
      AboveShrinks(uf, y);
      AboveShrinks(u, y);
      CompressionKeepsResolved(uf, u, root, uf[y].parent.value);
    }
  }

  lemma {:induction false} CompressionKeepsSpirit<G(!new)>(ops: GroupOps<G>, uf: State<G>, u: State<G>, root: int, y: int)
    requires IsGroup(ops) && WF(uf) && WF(u) && u.Keys == uf.Keys && root in uf && uf[root].isRoot
    requires forall z | z in uf :: RehungKeepingSpirit(ops, uf, u, z, root)
    requires y in uf
    ensures Spirit(ops, u, y) == Spirit(ops, uf, y)
    decreases |Above(u, y)|
  {
    assert u[root] == uf[root];
    if Compressed(uf, u, y, root) && Spirit(ops, uf, y) == ops.mul(uf[root].spirit, u[y].spirit) {
    } else if !uf[y].isRoot {
      AboveShrinks(uf, y);
      AboveShrinks(u, y);
      CompressionKeepsSpirit(ops, uf, u, root, uf[y].parent.value);
    }
  }

  /** `getGamesPlayed`: after a `find`, the player's delta plus its parent's
      (the root's) is the player's games played. */
  method GetGamesPlayed<G(!new)>(ops: GroupOps<G>, uf: State<G>, x: int) returns (u: State<G>, games: int)
    requires WF(uf) && x in uf
    ensures games == Games(uf, x)
    ensures WF(u) && u.Keys == uf.Keys && forall y | y in uf :: Games(u, y) == Games(uf, y)
  {
    var root;
    u, root := Find(ops, uf, x);
    if u[x].isRoot {
      games := u[x].gamesPlayed;
    } else {
      games := u[x].gamesPlayed + u[u[x].parent.value].gamesPlayed;
    }
  }

  /** `getPartialSpirit`: after a `find`, the root's spirit times the
      player's is the player's partial spirit. */
  method GetPartialSpirit<G(!new)>(ops: GroupOps<G>, uf: State<G>, x: int) returns (u: State<G>, spirit: G)
    requires IsGroup(ops) && WF(uf) && x in uf
    ensures spirit == Spirit(ops, uf, x)
    ensures WF(u) && u.Keys == uf.Keys && forall y | y in uf :: Spirit(ops, u, y) == Spirit(ops, uf, y)
  {
    var root;
    u, root := Find(ops, uf, x);
    if u[x].isRoot {
      spirit := u[x].spirit;
    } else {
      spirit := ops.mul(u[u[x].parent.value].spirit, u[x].spirit);
    }
  }

  /** What `unite` is called with: two distinct roots, the buyer holding
      `team`. */
  ghost predicate UniteReady<G>(uf: State<G>, buying: int, bought: int, team: Team<G>) {
    && WF(uf) && buying in uf && bought in uf && buying != bought
    && uf[buying].isRoot && uf[bought].isRoot && uf[buying].team == Some(team.id)
  }

  /** `unite(buyingRoot, boughtRoot)`: the larger group's root survives (the
      buyer on a tie) with the summed size and the buyer's team; the other
      root hangs below it without a team. `team` is the buying team record;
      when the bought root survives, the team's set moves to it. No other
      player is touched. */
  function Unite<G>(ops: GroupOps<G>, uf: State<G>, buying: int, bought: int, team: Team<G>): (r: (State<G>, int, Team<G>))
    requires UniteReady(uf, buying, bought, team)
    ensures var (u, w, t) := r; var other := if w == buying then bought else buying;
      && WF(u) && u.Keys == uf.Keys
      && w == (if uf[buying].size >= uf[bought].size then buying else bought)
      && u[w].isRoot && u[w].size == uf[buying].size + uf[bought].size && u[w].team == uf[buying].team
      && !u[other].isRoot && u[other].parent == Some(w) && u[other].team == None
      && forall y | y in uf && y != buying && y != bought :: u[y] == uf[y]
    ensures var (_, w, t) := r;
      && t.(teamSet := team.teamSet) == team
      && t.teamSet == (if w == bought then Some(bought) else team.teamSet)
      && (team.teamSet == Some(buying) ==> t.teamSet == Some(w))
  {
    var a, b := uf[buying], uf[bought];
    assert Linked(uf, buying) && Linked(uf, bought);
    if a.size >= b.size then
      var b' := b.(isRoot := false, parent := Some(buying), team := None,
                   gamesPlayed := b.gamesPlayed - a.gamesPlayed,
                   spirit := ops.mul(ops.mul(ops.inv(a.spirit), team.teamSpirit), b.spirit));
      var u := uf[bought := b'][buying := a.(size := a.size + b.size)];
      UniteWF(uf, u, buying, bought);
      (u, buying, team)
    else
      var bSpirit := ops.mul(team.teamSpirit, b.spirit);
      var a' := a.(isRoot := false, parent := Some(bought), team := None,
                   gamesPlayed := a.gamesPlayed - b.gamesPlayed,
                   spirit := ops.mul(ops.inv(bSpirit), a.spirit));
      var u := uf[buying := a'][bought := b.(size := b.size + a.size, team := a.team, spirit := bSpirit)];
      UniteWF(uf, u, bought, buying);
      (u, bought, SetTeamSet(team, Some(bought)))
  }

  /** Hanging root `o` below root `w` and adding the sizes keeps the forest
      well formed. */
  lemma UniteWF<G>(uf: State<G>, u: State<G>, w: int, o: int)
    requires WF(uf) && w in uf && o in uf && w != o && uf[w].isRoot && uf[o].isRoot
    requires u.Keys == uf.Keys && u[w].isRoot && u[w].parent == None && u[w].size == uf[w].size + uf[o].size
    requires !u[o].isRoot && u[o].parent == Some(w) && u[o].size == uf[o].size
    requires forall y | y in uf && y != w && y != o :: u[y] == uf[y]
    ensures WF(u)
  {
    forall y | y in u
      ensures Linked(u, y)
    {
      assert Linked(uf, y) && Linked(uf, o) && Linked(uf, w);
      if y != o && !uf[y].isRoot {
        var p := uf[y].parent.value;
        assert u[p].size >= uf[p].size;
      }
    }
  }

  /** After `unite`, every player keeps its games played; the bought group's
      partial spirits are multiplied on the left by the buying team's spirit
      and the buying group's are unchanged; both groups share the surviving
      root. */
  lemma UniteResolved<G(!new)>(ops: GroupOps<G>, uf: State<G>, buying: int, bought: int, team: Team<G>)
    requires IsGroup(ops) && UniteReady(uf, buying, bought, team)
    ensures var (u, w, _) := Unite(ops, uf, buying, bought, team);
      forall y | y in uf ::
        && Games(u, y) == Games(uf, y)
        && Rep(u, y) == (if Rep(uf, y) == buying || Rep(uf, y) == bought then w else Rep(uf, y))
        && Spirit(ops, u, y) == if Rep(uf, y) == bought then ops.mul(team.teamSpirit, Spirit(ops, uf, y)) else Spirit(ops, uf, y)
  {
    forall y | y in uf
      ensures var (u, w, _) := Unite(ops, uf, buying, bought, team);
        && Games(u, y) == Games(uf, y)
        && Rep(u, y) == (if Rep(uf, y) == buying || Rep(uf, y) == bought then w else Rep(uf, y))
        && Spirit(ops, u, y) == if Rep(uf, y) == bought then ops.mul(team.teamSpirit, Spirit(ops, uf, y)) else Spirit(ops, uf, y)
    {
      UniteResolvedAt(ops, uf, buying, bought, team, y);
    }
  }

  lemma {:induction false} UniteResolvedAt<G(!new)>(ops: GroupOps<G>, uf: State<G>, buying: int, bought: int, team: Team<G>, y: int)
    requires IsGroup(ops) && UniteReady(uf, buying, bought, team) && y in uf
    ensures var (u, w, _) := Unite(ops, uf, buying, bought, team);
      && Games(u, y) == Games(uf, y)
      && Rep(u, y) == (if Rep(uf, y) == buying || Rep(uf, y) == bought then w else Rep(uf, y))
      && Spirit(ops, u, y) == if Rep(uf, y) == bought then ops.mul(team.teamSpirit, Spirit(ops, uf, y)) else Spirit(ops, uf, y)
    decreases |Above(Unite(ops, uf, buying, bought, team).0, y)|
  {
    var (u, w, _) := Unite(ops, uf, buying, bought, team);
    var a, b := uf[buying], uf[bought];
    if y == buying || y == bought {
      if w == buying && y == bought {
        var s := ops.mul(ops.inv(a.spirit), team.teamSpirit);
        calc {
          Spirit(ops, u, bought);
          ops.mul(a.spirit, ops.mul(s, b.spirit));
          { assert AssocAt(ops, a.spirit, s, b.spirit); }
          ops.mul(ops.mul(a.spirit, s), b.spirit);
          { LeftCancel(ops, a.spirit, team.teamSpirit); }
          ops.mul(team.teamSpirit, b.spirit);
        }
      } else if w == bought && y == buying {
        LeftCancel(ops, ops.mul(team.teamSpirit, b.spirit), a.spirit);
      }
    } else if !uf[y].isRoot {
      AboveShrinks(uf, y);
      var p := uf[y].parent.value;
      AboveShrinks(u, y);
      UniteResolvedAt(ops, uf, buying, bought, team, p);
      assert AssocAt(ops, team.teamSpirit, Spirit(ops, uf, p), uf[y].spirit);
    }
  }

  /** The fields the forest and the resolved values are made of. */
  function Links<G>(p: Player<G>): (bool, Option<int>, int, int, G) {
    (p.isRoot, p.parent, p.size, p.gamesPlayed, p.spirit)
  }

  /** A state that keeps every old player's links, and may hold new players,
      resolves the old players exactly as before. */
  lemma {:induction false} SameLinks<G>(ops: GroupOps<G>, uf: State<G>, u: State<G>, y: int)
    requires WF(uf) && WF(u) && uf.Keys <= u.Keys && y in uf
    requires forall z | z in uf :: Links(u[z]) == Links(uf[z])
    ensures Rep(u, y) == Rep(uf, y) && Games(u, y) == Games(uf, y) && Spirit(ops, u, y) == Spirit(ops, uf, y)
    decreases |Above(u, y)|
  {
    assert Links(u[y]) == Links(uf[y]);
    if !uf[y].isRoot {
      AboveShrinks(uf, y);
      AboveShrinks(u, y);
      SameLinks(ops, uf, u, uf[y].parent.value);
    }
  }

  /** `updateCards` changes nobody's group, games played or partial spirit. */
  lemma UpdateCardsKeepsResolved<G>(ops: GroupOps<G>, uf: State<G>, x: int, amount: int)
    requires WF(uf) && x in uf
    ensures var u := uf[x := UpdateCards(uf[x], amount)];
      && WF(u)
      && forall y | y in uf :: Rep(u, y) == Rep(uf, y) && Games(u, y) == Games(uf, y) && Spirit(ops, u, y) == Spirit(ops, uf, y)
  {
    var u := uf[x := UpdateCards(uf[x], amount)];
    assert WF(u) by {
      forall y | y in u
        ensures Linked(u, y)
      {
        assert y in uf ==> Linked(uf, y);
        if y in uf && !uf[y].isRoot {
          assert u[uf[y].parent.value].size == uf[uf[y].parent.value].size;
        }
      }
    }
    forall y | y in uf
      ensures Rep(u, y) == Rep(uf, y) && Games(u, y) == Games(uf, y) && Spirit(ops, u, y) == Spirit(ops, uf, y)
    {
      SameLinks(ops, uf, u, y);
    }
  }

  /** Adding a freshly constructed player makes it a group of its own whose
      resolved values are its own fields; nobody else is affected. */
  lemma AddPlayerResolved<G>(ops: GroupOps<G>, uf: State<G>, id: int, cards: int, gamesPlayed: int,
                             ability: int, isGoalKeeper: bool, spirit: G, team: Option<int>)
    requires WF(uf) && id !in uf
    ensures var u := uf[id := NewPlayer(id, cards, gamesPlayed, ability, isGoalKeeper, spirit, team)];
      && WF(u)
      && Rep(u, id) == id && Games(u, id) == gamesPlayed && Spirit(ops, u, id) == spirit
      && forall y | y in uf :: Rep(u, y) == Rep(uf, y) && Games(u, y) == Games(uf, y) && Spirit(ops, u, y) == Spirit(ops, uf, y)
  {
    var u := uf[id := NewPlayer(id, cards, gamesPlayed, ability, isGoalKeeper, spirit, team)];
    assert WF(u) by {
      forall y | y in u
        ensures Linked(u, y)
      {
        assert y in uf ==> Linked(uf, y);
        if y in uf && !uf[y].isRoot {
          assert u[uf[y].parent.value] == uf[uf[y].parent.value];
        }
      }
    }
    forall y | y in uf
      ensures Rep(u, y) == Rep(uf, y) && Games(u, y) == Games(uf, y) && Spirit(ops, u, y) == Spirit(ops, uf, y)
    {
      SameLinks(ops, uf, u, y);
    }
  }

  /** `updateGamesPlayed(a)` on a root adds `a` to the games played of every
      member of its group, and of no one else. */
  lemma {:induction false} UpdateRootGames<G>(uf: State<G>, r: int, amount: int, y: int)
    requires WF(uf) && r in uf && uf[r].isRoot && y in uf
    ensures WF(uf[r := UpdateGamesPlayed(uf[r], amount)])
    ensures Games(uf[r := UpdateGamesPlayed(uf[r], amount)], y) == Games(uf, y) + if Rep(uf, y) == r then amount else 0
    decreases |Above(uf, y)|
  {
    var u := uf[r := UpdateGamesPlayed(uf[r], amount)];
    assert WF(u) by {
      forall z | z in u
        ensures Linked(u, z)
      {
        assert Linked(uf, z);
        if !uf[z].isRoot {
          assert u[uf[z].parent.value].size == uf[uf[z].parent.value].size;
        }
      }
    }
    if !uf[y].isRoot {
      AboveShrinks(uf, y);
      UpdateRootGames(uf, r, amount, uf[y].parent.value);
    }
  }
}
