/** The parts of the Wet1 world cup (Wet1/worldcup23a1.cpp) that act on the
    team and player records: `add_player`, `play_match` and
    `get_num_played_games`. The id-keyed trees become maps from id to
    record; the sorted trees and linked lists are in other modules. */
module Wet1Cup {
  import opened Wet1Status
  import opened Wet1Player
  import opened Wet1Team

  datatype Cup = Cup(teams: map<int, Team>, players: map<int, Player>)

  /** The ids of the players of a team. */
  function Members(players: map<int, Player>, teamId: int): set<int> {
    set pid | pid in players && players[pid].team == teamId
  }

  /** The ids of the goalkeepers of a team. */
  function Keepers(players: map<int, Player>, teamId: int): set<int> {
    set pid | pid in players && players[pid].team == teamId && players[pid].isGoalKeeper
  }

  /** Every record sits under its own id, every player's team exists, and
      each team's counters count its players and goalkeepers. */
  ghost predicate Consistent(c: Cup) {
    && (forall pid | pid in c.players :: c.players[pid].id == pid && c.players[pid].team in c.teams)
    && (forall tid | tid in c.teams ::
          && c.teams[tid].id == tid
          && c.teams[tid].playerCount == |Members(c.players, tid)|
          && c.teams[tid].goalKeeperCount == |Keepers(c.players, tid)|)
  }

  /** A player's actual games: its own count plus its team's. */
  function ActualGames(c: Cup, pid: int): int
    requires pid in c.players && c.players[pid].team in c.teams
  {
    GamesPlayed(c.players[pid], c.teams[c.players[pid].team].teamGamesPlayed)
  }

  /** The input checks of `add_player`. */
  predicate AddPlayerInputValid(playerId: int, teamId: int, gamesPlayed: int, goals: int, cards: int) {
    && playerId > 0 && teamId > 0 && gamesPlayed >= 0 && goals >= 0 && cards >= 0
    && !(gamesPlayed == 0 && (goals > 0 || cards > 0))
  }

  /** `add_player`: the new player's local count is its games minus the
      team's, so that its actual games come out as given; the team counts one
      more player, one more goalkeeper if it is one, and its match score
      gains goals minus cards. */
  function AddPlayer(c: Cup, playerId: int, teamId: int, gamesPlayed: int, goals: int, cards: int,
                     goalKeeper: bool): (r: (Status, Cup))
    ensures r.0 == InvalidInput <==> !AddPlayerInputValid(playerId, teamId, gamesPlayed, goals, cards)
    ensures r.0 == Failure <==>
      AddPlayerInputValid(playerId, teamId, gamesPlayed, goals, cards) && (playerId in c.players || teamId !in c.teams)
    ensures r.0 != Success ==> r.1 == c
    ensures r.0 == Success ==>
      && r.1.players.Keys == c.players.Keys + {playerId} && r.1.teams.Keys == c.teams.Keys
      && r.1.players[playerId] == Player(playerId, goals, cards, r.1.players[playerId].gamesPlayed, goalKeeper, teamId)
      && ActualGames(r.1, playerId) == gamesPlayed
      && r.1.teams[teamId].points == c.teams[teamId].points
      && r.1.teams[teamId].teamGamesPlayed == c.teams[teamId].teamGamesPlayed
      && Surplus(r.1.teams[teamId]) == Surplus(c.teams[teamId]) + goals - cards
      && (forall pid | pid in c.players :: r.1.players[pid] == c.players[pid])
      && (forall tid | tid in c.teams && tid != teamId :: r.1.teams[tid] == c.teams[tid])
  {
    if !AddPlayerInputValid(playerId, teamId, gamesPlayed, goals, cards) then (InvalidInput, c)
    else if playerId in c.players || teamId !in c.teams then (Failure, c)
    else
      var t := c.teams[teamId];
      var p := Player(playerId, goals, cards, gamesPlayed - t.teamGamesPlayed, goalKeeper, teamId);
      var t1 := UpdatePlayerCount(t, 1);
      var t2 := if goalKeeper then UpdateGoalKeeperCount(t1, 1) else t1;
      var t3 := UpdateMatchScore(t2, goals - cards);
      (Success, Cup(c.teams[teamId := t3], c.players[playerId := p]))
  }

  /** A new player joins the member set of its own team only. */
  lemma JoinMembers(ps: map<int, Player>, pid: int, p: Player, tid: int)
    requires pid !in ps
    ensures |Members(ps[pid := p], tid)| == |Members(ps, tid)| + (if p.team == tid then 1 else 0)
  {
    var before := Members(ps, tid);
    var after := Members(ps[pid := p], tid);
    if p.team == tid {
      assert after == before + {pid};
    } else {
      assert after == before;
    }
  }

  /** A new goalkeeper joins the goalkeeper set of its own team only. */
  lemma JoinKeepers(ps: map<int, Player>, pid: int, p: Player, tid: int)
    requires pid !in ps
    ensures |Keepers(ps[pid := p], tid)| == |Keepers(ps, tid)| + (if p.team == tid && p.isGoalKeeper then 1 else 0)
  {
    var before := Keepers(ps, tid);
    var after := Keepers(ps[pid := p], tid);
    if p.team == tid && p.isGoalKeeper {
      assert after == before + {pid};
    } else {
      assert after == before;
    }
  }

  /** `add_player` keeps the counters right. */
  lemma AddPlayerConsistent(c: Cup, playerId: int, teamId: int, gamesPlayed: int, goals: int, cards: int,
                            goalKeeper: bool)
    requires Consistent(c)
    ensures Consistent(AddPlayer(c, playerId, teamId, gamesPlayed, goals, cards, goalKeeper).1)
  {
    var r := AddPlayer(c, playerId, teamId, gamesPlayed, goals, cards, goalKeeper);
    if r.0 == Success {
      var d := r.1;
      forall tid | tid in d.teams
        ensures d.teams[tid].playerCount == |Members(d.players, tid)|
        ensures d.teams[tid].goalKeeperCount == |Keepers(d.players, tid)|
      {
        JoinMembers(c.players, playerId, d.players[playerId], tid);
        JoinKeepers(c.players, playerId, d.players[playerId], tid);
      }
    }
  }

  /** `add_player` leaves every other player's actual games alone. */
  lemma AddPlayerKeepsGames(c: Cup, playerId: int, teamId: int, gamesPlayed: int, goals: int, cards: int,
                            goalKeeper: bool, pid: int)
    requires Consistent(c) && pid in c.players
    ensures var r := AddPlayer(c, playerId, teamId, gamesPlayed, goals, cards, goalKeeper).1;
      pid in r.players && r.players[pid].team in r.teams && ActualGames(r, pid) == ActualGames(c, pid)
  {
  }

  /** The ids of the legal teams: what the tree `playableTeams`, and the
      team list threaded through it, hold between operations. */
  function Playable(c: Cup): set<int> {
    set tid | tid in c.teams && IsLegal(c.teams[tid])
  }

  /** `add_player` makes its team playable exactly when the new player
      makes it legal; the source then inserts it into `playableTeams` and
      the team list unless it is there already. No team stops being
      playable. */
  lemma AddPlayerPlayable(c: Cup, playerId: int, teamId: int, gamesPlayed: int, goals: int, cards: int,
                          goalKeeper: bool)
    ensures var r := AddPlayer(c, playerId, teamId, gamesPlayed, goals, cards, goalKeeper);
      && Playable(c) <= Playable(r.1)
      && (r.0 == Success ==>
            Playable(r.1) == Playable(c) + (if IsLegal(r.1.teams[teamId]) then {teamId} else {}))
  {
    var r := AddPlayer(c, playerId, teamId, gamesPlayed, goals, cards, goalKeeper);
    if r.0 == Success {
      var t := c.teams[teamId];
      assert r.1.teams[teamId].playerCount == t.playerCount + 1;
      assert r.1.teams[teamId].goalKeeperCount == t.goalKeeperCount + (if goalKeeper then 1 else 0);
      assert IsLegal(t) ==> IsLegal(r.1.teams[teamId]);
      assert forall tid | tid in c.teams && tid != teamId :: r.1.teams[tid] == c.teams[tid];
    }
  }

  /** The legality check of `play_match`. */
  predicate BothLegal(c: Cup, teamId1: int, teamId2: int)
    requires teamId1 in c.teams && teamId2 in c.teams
  {
    IsLegal(c.teams[teamId1]) && IsLegal(c.teams[teamId2])
  }

  /** `play_match`: the higher match score gets three points, a draw one
      each, and both teams' game counters grow by one. */
  function PlayMatch(c: Cup, teamId1: int, teamId2: int): (r: (Status, Cup))
    ensures r.0 == InvalidInput <==> teamId1 <= 0 || teamId2 <= 0 || teamId1 == teamId2
    ensures r.0 == Failure <==>
      && teamId1 > 0 && teamId2 > 0 && teamId1 != teamId2
      && (teamId1 !in c.teams || teamId2 !in c.teams || !BothLegal(c, teamId1, teamId2))
    ensures r.0 != Success ==> r.1 == c
    ensures r.0 == Success ==>
      && r.1.players == c.players && r.1.teams.Keys == c.teams.Keys
      && (forall tid | tid in c.teams && tid != teamId1 && tid != teamId2 :: r.1.teams[tid] == c.teams[tid])
  {
    if teamId1 <= 0 || teamId2 <= 0 || teamId1 == teamId2 then (InvalidInput, c)
    else if teamId1 !in c.teams || teamId2 !in c.teams then (Failure, c)
    else if !BothLegal(c, teamId1, teamId2) then (Failure, c)
    else
      var t1 := c.teams[teamId1];
      var t2 := c.teams[teamId2];
      var (u1, u2) :=
        if t1.matchScore > t2.matchScore then (UpdatePoints(t1, 3), t2)
        else if t1.matchScore < t2.matchScore then (t1, UpdatePoints(t2, 3))
        else (UpdatePoints(t1, 1), UpdatePoints(t2, 1));
      (Success, Cup(c.teams[teamId1 := UpdateTeamGamesPlayed(u1)][teamId2 := UpdateTeamGamesPlayed(u2)], c.players))
  }

  /** The points a match hands out: three to the strictly higher match
      score, one each on a draw. Nothing but points and game counters
      changes, so each team's match score keeps its surplus over points. */
  lemma PlayMatchPoints(c: Cup, teamId1: int, teamId2: int)
    requires PlayMatch(c, teamId1, teamId2).0 == Success
    ensures var t := PlayMatch(c, teamId1, teamId2).1.teams;
      var d1 := t[teamId1].points - c.teams[teamId1].points;
      var d2 := t[teamId2].points - c.teams[teamId2].points;
      && (c.teams[teamId1].matchScore > c.teams[teamId2].matchScore ==> d1 == 3 && d2 == 0)
      && (c.teams[teamId1].matchScore < c.teams[teamId2].matchScore ==> d1 == 0 && d2 == 3)
      && (c.teams[teamId1].matchScore == c.teams[teamId2].matchScore ==> d1 == 1 && d2 == 1)
      && Surplus(t[teamId1]) == Surplus(c.teams[teamId1]) && Surplus(t[teamId2]) == Surplus(c.teams[teamId2])
      && t[teamId1].playerCount == c.teams[teamId1].playerCount
      && t[teamId2].playerCount == c.teams[teamId2].playerCount
  {
  }

  /** The order of the two ids does not matter. */
  lemma PlayMatchSymmetric(c: Cup, teamId1: int, teamId2: int)
    ensures PlayMatch(c, teamId1, teamId2) == PlayMatch(c, teamId2, teamId1)
  {
    var r := PlayMatch(c, teamId1, teamId2);
    var q := PlayMatch(c, teamId2, teamId1);
    if r.0 == Success {
      assert r.1.teams.Keys == q.1.teams.Keys;
      forall tid | tid in r.1.teams
        ensures r.1.teams[tid] == q.1.teams[tid]
      {
      }
      assert r.1.teams == q.1.teams;
    }
  }

  /** Bumping the team counters is one more game for exactly the players of
      the two teams, and the counters stay right. */
  lemma PlayMatchGames(c: Cup, teamId1: int, teamId2: int, pid: int)
    requires Consistent(c) && pid in c.players
    ensures Consistent(PlayMatch(c, teamId1, teamId2).1)
    ensures var r := PlayMatch(c, teamId1, teamId2);
      ActualGames(r.1, pid) == ActualGames(c, pid) +
        (if r.0 == Success && c.players[pid].team in {teamId1, teamId2} then 1 else 0)
  {
  }

  /** `get_num_played_games`. */
  function NumPlayedGames(c: Cup, playerId: int): (r: Output)
    requires Consistent(c)
    ensures r == Error(InvalidInput) <==> playerId <= 0
    ensures r == Error(Failure) <==> playerId > 0 && playerId !in c.players
    ensures r.Value? ==> playerId in c.players && r.v == ActualGames(c, playerId)
    ensures r.Value? || r.Error?
  {
    if playerId <= 0 then Error(InvalidInput)
    else if playerId !in c.players then Error(Failure)
    else Value(GamesPlayed(c.players[playerId], c.teams[c.players[playerId].team].teamGamesPlayed))
  }
}
