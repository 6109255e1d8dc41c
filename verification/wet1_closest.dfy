/** `get_closest_player` and `abs` (Wet1/worldcup23a1.cpp). All players sit in
    one order, `Player::operator<`, threaded on a linked list; the closest
    player to a given one is whichever of its two list neighbours is nearer
    in goals, then in cards, then in id, with the larger id winning a full
    tie. */
module Wet1Closest {
  import opened Wet1Status
  import opened Wet1Player
  import opened Wet1Cup

  /** `abs`. The operands here are differences of goals, cards and ids, so
      the 32-bit `-INT_MIN` case does not arise. */
  function Abs(a: int): (r: int)
    ensures r >= 0 && (r == a || r == -a)
  {
    if a >= 0 then a else -a
  }

  /** How far a candidate q is from p, as the tie-breaking chain compares it:
      goals gap, cards gap, id gap, and last the candidate's id negated, so
      that a larger id counts as nearer. */
  datatype Gap = Gap(goals: int, cards: int, id: int, tie: int)

  function GapTo(p: Player, q: Player): Gap {
    Gap(Abs(p.goals - q.goals), Abs(p.cards - q.cards), Abs(p.id - q.id), -q.id)
  }

  /** The lexicographic order on gaps. */
  predicate GapLess(a: Gap, b: Gap) {
    || a.goals < b.goals
    || (a.goals == b.goals && a.cards < b.cards)
    || (a.goals == b.goals && a.cards == b.cards && a.id < b.id)
    || (a.goals == b.goals && a.cards == b.cards && a.id == b.id && a.tie < b.tie)
  }

  /** The comparison chain of lines 521-545, branch by branch: the id of
      `next` or of `previous`. */
  function Nearer(p: Player, next: Player, previous: Player): (id: int)
    ensures id == next.id || id == previous.id
  {
    if Abs(p.goals - next.goals) < Abs(p.goals - previous.goals) then next.id
    else if Abs(p.goals - next.goals) == Abs(p.goals - previous.goals) then
      if Abs(p.cards - next.cards) < Abs(p.cards - previous.cards) then next.id
      else if Abs(p.cards - next.cards) == Abs(p.cards - previous.cards) then
        if Abs(p.id - next.id) < Abs(p.id - previous.id) then next.id
        else if Abs(p.id - next.id) == Abs(p.id - previous.id) then
          if next.id > previous.id then next.id else previous.id
        else previous.id
      else previous.id
    else previous.id
  }

  /** The chain picks `next` exactly when it is strictly nearer in the
      lexicographic gap order, and otherwise `previous`. */
  lemma NearerIsLexicographic(p: Player, next: Player, previous: Player)
    ensures GapLess(GapTo(p, next), GapTo(p, previous)) ==> Nearer(p, next, previous) == next.id
    ensures !GapLess(GapTo(p, next), GapTo(p, previous)) ==> Nearer(p, next, previous) == previous.id
  {
  }

  /** Whichever of the two is chosen, the other is not strictly nearer. */
  lemma NearerIsNearest(p: Player, next: Player, previous: Player)
    ensures || (Nearer(p, next, previous) == next.id && !GapLess(GapTo(p, previous), GapTo(p, next)))
            || (Nearer(p, next, previous) == previous.id && !GapLess(GapTo(p, next), GapTo(p, previous)))
  {
    NearerIsLexicographic(p, next, previous);
  }

  /** With distinct ids, which neighbour is called `next` and which
      `previous` does not matter: the gap order is total on them. */
  lemma NearerIsSymmetric(p: Player, next: Player, previous: Player)
    requires next.id != previous.id
    ensures Nearer(p, next, previous) == Nearer(p, previous, next)
  {
    NearerIsLexicographic(p, next, previous);
    NearerIsLexicographic(p, previous, next);
  }

  /** Lines 502-545 on the order s: the player at index i has the neighbours
      at i - 1 and i + 1 when they exist; with only one, that one is the
      answer. At least two players means at least one neighbour. */
  function Closest(s: seq<Player>, i: int): (id: int)
    requires 0 <= i < |s| && |s| > 1
    ensures i == 0 ==> id == s[1].id
    ensures i == |s| - 1 ==> id == s[i - 1].id
    ensures 0 < i < |s| - 1 ==> (id == s[i + 1].id || id == s[i - 1].id)
  {
    if i == |s| - 1 then s[i - 1].id
    else if i == 0 then s[i + 1].id
    else Nearer(s[i], s[i + 1], s[i - 1])
  }

  /** The answer is a neighbour of s[i], and no neighbour is strictly nearer
      to it than the answer. */
  lemma ClosestIsNearestNeighbour(s: seq<Player>, i: int)
    requires 0 <= i < |s| && |s| > 1
    ensures exists j :: && Neighbour(s, i, j) && s[j].id == Closest(s, i)
                        && (forall k | Neighbour(s, i, k) :: !GapLess(GapTo(s[i], s[k]), GapTo(s[i], s[j])))
  {
    if i == |s| - 1 {
      assert Neighbour(s, i, i - 1);
    } else if i == 0 {
      assert Neighbour(s, i, 1);
    } else {
      NearerIsLexicographic(s[i], s[i + 1], s[i - 1]);
      if GapLess(GapTo(s[i], s[i + 1]), GapTo(s[i], s[i - 1])) {
        assert Neighbour(s, i, i + 1);
      } else {
        assert Neighbour(s, i, i - 1);
      }
    }
  }

  /** j is next to i in s. */
  predicate Neighbour(s: seq<Player>, i: int, j: int) {
    0 <= j < |s| && (j == i - 1 || j == i + 1)
  }

  /** The order lists exactly the players of the cup, each under its own
      record, ascending by `operator<`. */
  ghost predicate Lists(c: Cup, order: seq<Player>) {
    && (forall k | 0 <= k < |order| :: order[k].id in c.players && c.players[order[k].id] == order[k])
    && (forall pid | pid in c.players :: exists k :: 0 <= k < |order| && order[k].id == pid)
    && (forall a, b | 0 <= a < b < |order| :: Less(order[a], order[b]))
  }

  /** The position of a player in the order. */
  function IndexOf(order: seq<Player>, playerId: int): (i: int)
    requires exists k :: 0 <= k < |order| && order[k].id == playerId
    ensures 0 <= i < |order| && order[i].id == playerId
  {
    if order[0].id == playerId then 0 else 1 + IndexOf(order[1..], playerId)
  }

  /** `get_closest_player`: the input checks, then the player must exist in
      the given team, then its nearer neighbour in the global order: no
      neighbour is strictly nearer by the goals, cards, id and larger-id
      chain. */
  function GetClosestPlayer(c: Cup, order: seq<Player>, playerId: int, teamId: int): (r: Output)
    requires Lists(c, order)
    ensures r == Error(InvalidInput) <==> teamId <= 0 || playerId <= 0
    ensures r == Error(Failure) <==>
      && teamId > 0 && playerId > 0
      && (|order| <= 1 || teamId !in c.teams || playerId !in c.players || c.players[playerId].team != teamId)
    ensures r.Value? ==>
      && playerId in c.players && c.players[playerId].team == teamId
      && exists i, j ::
           && 0 <= i < |order| && order[i].id == playerId && Neighbour(order, i, j) && r.v == order[j].id
           && forall k | Neighbour(order, i, k) :: !GapLess(GapTo(order[i], order[k]), GapTo(order[i], order[j]))
    ensures r.Value? || r.Error?
  {
    if teamId <= 0 || playerId <= 0 then Error(InvalidInput)
    else if |order| <= 1 then Error(Failure)
    else if teamId !in c.teams then Error(Failure)
    else if playerId !in c.players || c.players[playerId].team != teamId then Error(Failure)
    else
      var i := IndexOf(order, playerId);
      ClosestIsNearestNeighbour(order, i);
      Value(Closest(order, i))
  }
}
