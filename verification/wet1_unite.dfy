/** `unite_teams` (Wet1/worldcup23a1.cpp): the new team's counters, the
    folding of each old team's game counter into its players, and the two
    linear merges (`mergePlayers` by id, `mergePlayersSorted` by
    `Player::operator<`) whose output `generateTree` turns into the new
    team's trees. */
module Wet1Unite {
  import opened Orders
  import opened Wet1Player
  import opened Wet1Team

  /** A strict weak order: irreflexive, transitive, and "not smaller" is
      transitive too. Both comparators the merges use are of this kind. */
  ghost predicate WeakOrder<T(!new)>(lt: (T, T) -> bool) {
    && Irreflexive(lt)
    && Transitive(lt)
    && (forall a, b, c :: !lt(a, b) && !lt(b, c) ==> !lt(a, c))
  }

  /** The comparison of `mergePlayers`. */
  predicate IdLess(a: Player, b: Player) {
    a.id < b.id
  }

  lemma IdLessIsWeak()
    ensures WeakOrder(IdLess)
  {
  }

  lemma LessIsWeak()
    ensures WeakOrder(Less)
  {
  }

  /** The merge both loops perform, as a recursive reference: the smaller
      head goes first, and when the first head is not smaller the second
      array's head. */
  function MergeSeq<T>(lt: (T, T) -> bool, xs: seq<T>, ys: seq<T>): seq<T>
    decreases |xs| + |ys|
  {
    if xs == [] then ys
    else if ys == [] then xs
    else if lt(xs[0], ys[0]) then [xs[0]] + MergeSeq(lt, xs[1..], ys)
    else [ys[0]] + MergeSeq(lt, xs, ys[1..])
  }

  /** No element of s is below h. */
  ghost predicate NotBelow<T>(lt: (T, T) -> bool, s: seq<T>, h: T) {
    forall k | 0 <= k < |s| :: !lt(s[k], h)
  }

  /** The merge is a rearrangement of its two inputs. */
  lemma {:induction false} MergeSeqPermutes<T>(lt: (T, T) -> bool, xs: seq<T>, ys: seq<T>)
    ensures |MergeSeq(lt, xs, ys)| == |xs| + |ys|
    ensures multiset(MergeSeq(lt, xs, ys)) == multiset(xs) + multiset(ys)
    decreases |xs| + |ys|
  {
    if xs != [] && ys != [] {
      if lt(xs[0], ys[0]) {
        MergeSeqPermutes(lt, xs[1..], ys);
        assert MergeSeq(lt, xs, ys) == [xs[0]] + MergeSeq(lt, xs[1..], ys);
        assert xs == [xs[0]] + xs[1..];
      } else {
        MergeSeqPermutes(lt, xs, ys[1..]);
        assert MergeSeq(lt, xs, ys) == [ys[0]] + MergeSeq(lt, xs, ys[1..]);
        assert ys == [ys[0]] + ys[1..];
      }
    }
  }

  /** A bound below every input element is a bound below the merge. */
  lemma {:induction false} MergeSeqBound<T>(lt: (T, T) -> bool, xs: seq<T>, ys: seq<T>, h: T)
    requires NotBelow(lt, xs, h) && NotBelow(lt, ys, h)
    ensures NotBelow(lt, MergeSeq(lt, xs, ys), h)
    decreases |xs| + |ys|
  {
    if xs != [] && ys != [] {
      if lt(xs[0], ys[0]) {
        MergeSeqBound(lt, xs[1..], ys, h);
      } else {
        MergeSeqBound(lt, xs, ys[1..], h);
      }
    }
  }

  /** When the first head goes out, nothing left in either array is below
      it. */
  lemma FirstHeadBound<T(!new)>(lt: (T, T) -> bool, xs: seq<T>, ys: seq<T>)
    requires WeakOrder(lt) && SortedBy(lt, xs) && SortedBy(lt, ys)
    requires xs != [] && ys != [] && lt(xs[0], ys[0])
    ensures NotBelow(lt, xs[1..], xs[0]) && NotBelow(lt, ys, xs[0])
  {
    forall k | 0 <= k < |xs| - 1
      ensures !lt(xs[1..][k], xs[0])
    {
      assert xs[1..][k] == xs[k + 1];
    }
    forall k | 0 <= k < |ys|
      ensures !lt(ys[k], xs[0])
    {
      if k > 0 {
        assert !lt(ys[k], ys[0]);
      }
    }
  }

  /** When the second head goes out, nothing left in either array is below
      it. */
  lemma SecondHeadBound<T(!new)>(lt: (T, T) -> bool, xs: seq<T>, ys: seq<T>)
    requires WeakOrder(lt) && SortedBy(lt, xs) && SortedBy(lt, ys)
    requires xs != [] && ys != [] && !lt(xs[0], ys[0])
    ensures NotBelow(lt, xs, ys[0]) && NotBelow(lt, ys[1..], ys[0])
  {
    forall k | 0 <= k < |ys| - 1
      ensures !lt(ys[1..][k], ys[0])
    {
      assert ys[1..][k] == ys[k + 1];
    }
    forall k | 0 <= k < |xs|
      ensures !lt(xs[k], ys[0])
    {
      if k > 0 {
        assert !lt(xs[k], xs[0]);
      }
    }
  }

  /** A sorted tail below which the head does not reach is sorted with the
      head in front. */
  lemma ConsSorted<T>(lt: (T, T) -> bool, h: T, m: seq<T>)
    requires SortedBy(lt, m) && NotBelow(lt, m, h)
    ensures SortedBy(lt, [h] + m)
  {
    forall i, j | 0 <= i < j < 1 + |m|
      ensures !lt(([h] + m)[j], ([h] + m)[i])
    {
      assert ([h] + m)[j] == m[j - 1];
      if i > 0 {
        assert ([h] + m)[i] == m[i - 1];
      }
    }
  }

  /** Merging two sorted arrays gives a sorted one. */
  lemma {:induction false} MergeSeqSorted<T(!new)>(lt: (T, T) -> bool, xs: seq<T>, ys: seq<T>)
    requires WeakOrder(lt) && SortedBy(lt, xs) && SortedBy(lt, ys)
    ensures SortedBy(lt, MergeSeq(lt, xs, ys))
    decreases |xs| + |ys|
  {
    if xs != [] && ys != [] {
      if lt(xs[0], ys[0]) {
        FirstHeadBound(lt, xs, ys);
        MergeSeqSorted(lt, xs[1..], ys);
        MergeSeqBound(lt, xs[1..], ys, xs[0]);
        ConsSorted(lt, xs[0], MergeSeq(lt, xs[1..], ys));
      } else {
        SecondHeadBound(lt, xs, ys);
        MergeSeqSorted(lt, xs, ys[1..]);
        MergeSeqBound(lt, xs, ys[1..], ys[0]);
        ConsSorted(lt, ys[0], MergeSeq(lt, xs, ys[1..]));
      }
    }
  }

  /** One step of the loop when the first array's head goes out. */
  lemma TakeFirst<T>(lt: (T, T) -> bool, xs: seq<T>, ys: seq<T>, o1: int, o2: int)
    requires 0 <= o1 < |xs| && 0 <= o2 <= |ys| && (o2 == |ys| || lt(xs[o1], ys[o2]))
    ensures MergeSeq(lt, xs[o1..], ys[o2..]) == [xs[o1]] + MergeSeq(lt, xs[o1 + 1..], ys[o2..])
  {
    assert xs[o1..][1..] == xs[o1 + 1..];
    if o2 == |ys| {
      assert ys[o2..] == [];
      assert MergeSeq(lt, xs[o1 + 1..], []) == xs[o1 + 1..];
    }
  }

  /** One step of the loop when the second array's head goes out. */
  lemma TakeSecond<T>(lt: (T, T) -> bool, xs: seq<T>, ys: seq<T>, o1: int, o2: int)
    requires 0 <= o1 <= |xs| && 0 <= o2 < |ys| && (o1 == |xs| || !lt(xs[o1], ys[o2]))
    ensures MergeSeq(lt, xs[o1..], ys[o2..]) == [ys[o2]] + MergeSeq(lt, xs[o1..], ys[o2 + 1..])
  {
    assert ys[o2..][1..] == ys[o2 + 1..];
    if o1 == |xs| {
      assert xs[o1..] == [];
    }
  }

  lemma Shift<T>(out: seq<T>, x: T, m: seq<T>)
    ensures (out + [x]) + m == out + ([x] + m)
  {
  }

  /** The merge loop shared by `mergePlayers` and `mergePlayersSorted`. The
      result is a rearrangement of both inputs and, when both are sorted,
      sorted. */
  method Merge<T(!new)>(lt: (T, T) -> bool, xs: seq<T>, ys: seq<T>) returns (out: seq<T>)
    ensures |out| == |xs| + |ys|
    ensures multiset(out) == multiset(xs) + multiset(ys)
    ensures WeakOrder(lt) && SortedBy(lt, xs) && SortedBy(lt, ys) ==> SortedBy(lt, out)
  {
    var o1, o2 := 0, 0;
    out := [];
    while o1 < |xs| || o2 < |ys|
      invariant 0 <= o1 <= |xs| && 0 <= o2 <= |ys|
      invariant out + MergeSeq(lt, xs[o1..], ys[o2..]) == MergeSeq(lt, xs, ys)
      decreases |xs| + |ys| - o1 - o2
    {
      if o1 < |xs| && (o2 >= |ys| || lt(xs[o1], ys[o2])) {
        TakeFirst(lt, xs, ys, o1, o2);
        Shift(out, xs[o1], MergeSeq(lt, xs[o1 + 1..], ys[o2..]));
        out := out + [xs[o1]];
        o1 := o1 + 1;
      } else {
        TakeSecond(lt, xs, ys, o1, o2);
        Shift(out, ys[o2], MergeSeq(lt, xs[o1..], ys[o2 + 1..]));
        out := out + [ys[o2]];
        o2 := o2 + 1;
      }
    }
    assert xs[o1..] == [] && ys[o2..] == [];
    assert out == MergeSeq(lt, xs, ys);
    MergeSeqPermutes(lt, xs, ys);
    if WeakOrder(lt) && SortedBy(lt, xs) && SortedBy(lt, ys) {
      MergeSeqSorted(lt, xs, ys);
    }
  }

  /** The sum of goals minus cards, which a team's match score holds on top
      of its points. */
  function Score(ps: seq<Player>): int {
    if ps == [] then 0 else Score(ps[..|ps| - 1]) + ps[|ps| - 1].goals - ps[|ps| - 1].cards
  }

  /** What the loops of `mergePlayers` do to one player: the old team's games
      move into its own count and it joins the new team. */
  function Fold(p: Player, teamGamesPlayed: int, newTeamId: int): (q: Player)
    ensures GamesPlayed(q, 0) == GamesPlayed(p, teamGamesPlayed)
    ensures RankOf(q) == RankOf(p) && q.team == newTeamId && q.isGoalKeeper == p.isGoalKeeper
  {
    FoldTeamGames(p, teamGamesPlayed, newTeamId);
    UpdateStats(p, teamGamesPlayed, 0, 0).(team := newTeamId)
  }

  /** The new team of `unite_teams` (line 334 and the counter updates of
      `mergePlayers`), and one of the two player loops. */
  method FoldTeam(nt: Team, t: Team, ps: seq<Player>) returns (nt': Team, qs: seq<Player>)
    ensures nt'.(matchScore := nt.matchScore) == nt
    ensures Surplus(nt') == Surplus(nt) + Score(ps)
    ensures |qs| == |ps|
    ensures forall k | 0 <= k < |ps| :: qs[k] == Fold(ps[k], t.teamGamesPlayed, nt.id)
  {
    nt' := nt;
    qs := [];
    var i := 0;
    while i < |ps|
      invariant 0 <= i <= |ps| && |qs| == i
      invariant nt'.(matchScore := nt.matchScore) == nt
      invariant Surplus(nt') == Surplus(nt) + Score(ps[..i])
      invariant forall k | 0 <= k < i :: qs[k] == Fold(ps[k], t.teamGamesPlayed, nt.id)
    {
      var cur := UpdateStats(ps[i], t.teamGamesPlayed, 0, 0).(team := nt.id);
      assert ps[..i + 1][..i] == ps[..i];
      nt' := UpdateMatchScore(nt', cur.goals - cur.cards);
      qs := qs + [cur];
      i := i + 1;
    }
    assert ps[..i] == ps;
  }

  /** The record side of `unite_teams` and `mergePlayers`: a new team with
      the summed points, counters and a zero game counter, then both teams'
      players folded in. */
  method UniteCounters(t1: Team, t2: Team, newTeamId: int, ps1: seq<Player>, ps2: seq<Player>)
    returns (nt: Team, qs1: seq<Player>, qs2: seq<Player>)
    ensures nt.id == newTeamId && nt.points == t1.points + t2.points && nt.teamGamesPlayed == 0
    ensures nt.playerCount == t1.playerCount + t2.playerCount
    ensures nt.goalKeeperCount == t1.goalKeeperCount + t2.goalKeeperCount
    ensures Surplus(nt) == Score(ps1) + Score(ps2)
    ensures |qs1| == |ps1| && |qs2| == |ps2|
    ensures forall k | 0 <= k < |ps1| :: qs1[k].team == newTeamId && GamesPlayed(qs1[k], nt.teamGamesPlayed) == GamesPlayed(ps1[k], t1.teamGamesPlayed)
    ensures forall k | 0 <= k < |ps2| :: qs2[k].team == newTeamId && GamesPlayed(qs2[k], nt.teamGamesPlayed) == GamesPlayed(ps2[k], t2.teamGamesPlayed)
    ensures forall k | 0 <= k < |ps1| :: RankOf(qs1[k]) == RankOf(ps1[k])
    ensures forall k | 0 <= k < |ps2| :: RankOf(qs2[k]) == RankOf(ps2[k])
    ensures forall k | 0 <= k < |ps1| :: qs1[k] == Fold(ps1[k], t1.teamGamesPlayed, newTeamId)
    ensures forall k | 0 <= k < |ps2| :: qs2[k] == Fold(ps2[k], t2.teamGamesPlayed, newTeamId)
  {
    nt := NewTeam(newTeamId, t1.points + t2.points);
    nt := ResetTeamGamesPlayed(nt);
    nt := UpdateGoalKeeperCount(nt, t1.goalKeeperCount + t2.goalKeeperCount);
    nt := UpdatePlayerCount(nt, t1.playerCount + t2.playerCount);
    var nt1;
    nt1, qs1 := FoldTeam(nt, t1, ps1);
    nt, qs2 := FoldTeam(nt1, t2, ps2);
  }

  /** When each old team's match score is its points plus its players'
      goals minus cards, so is the new team's: its match score is the sum of
      the old two. */
  lemma UniteKeepsMatchScore(t1: Team, t2: Team, nt: Team, ps1: seq<Player>, ps2: seq<Player>)
    requires Surplus(t1) == Score(ps1) && Surplus(t2) == Score(ps2)
    requires nt.points == t1.points + t2.points && Surplus(nt) == Score(ps1) + Score(ps2)
    ensures nt.matchScore == t1.matchScore + t2.matchScore
  {
  }

  /** `unite_teams` as far as the player arrays go: fold both teams, then
      merge the id-ordered arrays by id and the rank-ordered arrays by
      `operator<`. The rank-ordered arrays hold the same player records,
      which `mergePlayers` has already folded when `mergePlayersSorted`
      compares them. */
  method UnitePlayers(t1: Team, t2: Team, newTeamId: int,
                      byId1: seq<Player>, byId2: seq<Player>, byRank1: seq<Player>, byRank2: seq<Player>)
    returns (nt: Team, byId: seq<Player>, byRank: seq<Player>)
    requires SortedBy(IdLess, byId1) && SortedBy(IdLess, byId2)
    requires SortedBy(Less, byRank1) && SortedBy(Less, byRank2)
    ensures nt.points == t1.points + t2.points && nt.teamGamesPlayed == 0
    ensures Surplus(nt) == Score(byId1) + Score(byId2)
    ensures |byId| == |byId1| + |byId2| && SortedBy(IdLess, byId)
    ensures |byRank| == |byRank1| + |byRank2| && SortedBy(Less, byRank)
    ensures multiset(byId) == multiset(FoldAll(byId1, t1.teamGamesPlayed, newTeamId))
                              + multiset(FoldAll(byId2, t2.teamGamesPlayed, newTeamId))
    ensures multiset(byRank) == multiset(FoldAll(byRank1, t1.teamGamesPlayed, newTeamId))
                                + multiset(FoldAll(byRank2, t2.teamGamesPlayed, newTeamId))
    ensures forall p | p in byId :: p.team == newTeamId
  {
    var qs1, qs2;
    nt, qs1, qs2 := UniteCounters(t1, t2, newTeamId, byId1, byId2);
    assert qs1 == FoldAll(byId1, t1.teamGamesPlayed, newTeamId);
    assert qs2 == FoldAll(byId2, t2.teamGamesPlayed, newTeamId);
    IdLessIsWeak();
    LessIsWeak();
    FoldKeepsOrder(IdLess, byId1, qs1);
    FoldKeepsOrder(IdLess, byId2, qs2);
    byId := Merge(IdLess, qs1, qs2);
    forall p | p in byId
      ensures p.team == newTeamId
    {
      assert p in multiset(qs1) + multiset(qs2);
    }
    var rs1 := FoldAll(byRank1, t1.teamGamesPlayed, newTeamId);
    var rs2 := FoldAll(byRank2, t2.teamGamesPlayed, newTeamId);
    FoldKeepsOrder(Less, byRank1, rs1);
    FoldKeepsOrder(Less, byRank2, rs2);
    byRank := Merge(Less, rs1, rs2);
  }

  /** Every player of a sequence folded into the new team. */
  function FoldAll(ps: seq<Player>, teamGamesPlayed: int, newTeamId: int): (qs: seq<Player>)
    ensures |qs| == |ps| && forall k | 0 <= k < |ps| :: qs[k] == Fold(ps[k], teamGamesPlayed, newTeamId)
  {
    seq(|ps|, k requires 0 <= k < |ps| => Fold(ps[k], teamGamesPlayed, newTeamId))
  }

  /** Folding changes neither ids nor ranks, so both orders survive it. */
  lemma FoldKeepsOrder(lt: (Player, Player) -> bool, ps: seq<Player>, qs: seq<Player>)
    requires lt == IdLess || lt == Less
    requires |qs| == |ps| && forall k | 0 <= k < |ps| :: RankOf(qs[k]) == RankOf(ps[k])
    requires SortedBy(lt, ps)
    ensures SortedBy(lt, qs)
  {
    forall i, j | 0 <= i < j < |qs|
      ensures !lt(qs[j], qs[i])
    {
      assert !lt(ps[j], ps[i]);
      assert RankOf(qs[j]) == RankOf(ps[j]) && RankOf(qs[i]) == RankOf(ps[i]);
      assert Less(qs[j], qs[i]) == Less(ps[j], ps[i]);
    }
  }
}
