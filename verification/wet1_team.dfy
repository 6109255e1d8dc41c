/** The Wet1 team record (Wet1/Team.cpp). Its two player trees and the top
    scorer pointer live with the domain code; the record keeps the counters.
    `matchScore` starts at the team's points and also carries its players'
    goals minus cards, so points and match score move together except when
    player stats change. */
module Wet1Team {

  /** `MIN_PLAYER_AMOUNT` (Wet1/Team.h). */
  const MinPlayerAmount: int := 11

  datatype Team = Team(
    id: int,
    points: int,
    matchScore: int,
    playerCount: int,
    goalKeeperCount: int,
    teamGamesPlayed: int)

  /** What the match score holds beyond the points: the players' goals minus
      cards. */
  function Surplus(t: Team): int {
    t.matchScore - t.points
  }

  /** The constructor. */
  function NewTeam(id: int, points: int): (t: Team)
    ensures t.id == id && t.points == points && Surplus(t) == 0
    ensures t.playerCount == 0 && t.goalKeeperCount == 0 && t.teamGamesPlayed == 0
  {
    Team(id, points, points, 0, 0, 0)
  }

  /** `isLegal`: a goalkeeper and at least eleven players. */
  predicate IsLegal(t: Team) {
    t.goalKeeperCount > 0 && t.playerCount >= MinPlayerAmount
  }

  /** A new team is never legal, and legality needs both conditions: one
      goalkeeper alone, or eleven field players alone, is not enough. */
  lemma LegalNeedsBoth(t: Team)
    ensures !IsLegal(NewTeam(t.id, t.points))
    ensures t.goalKeeperCount <= 0 ==> !IsLegal(t)
    ensures t.playerCount < 11 ==> !IsLegal(t)
    ensures t.goalKeeperCount >= 1 && t.playerCount >= 11 ==> IsLegal(t)
  {
  }

  /** `updatePoints`: points and match score both grow by the amount. */
  function UpdatePoints(t: Team, amount: int): (u: Team)
    ensures u.points - t.points == amount && Surplus(u) == Surplus(t)
    ensures u.(points := t.points, matchScore := t.matchScore) == t
  {
    t.(points := t.points + amount, matchScore := t.matchScore + amount)
  }

  /** `updateMatchScore`: only the match score moves. */
  function UpdateMatchScore(t: Team, amount: int): (u: Team)
    ensures u.points == t.points && Surplus(u) - Surplus(t) == amount
    ensures u.(matchScore := t.matchScore) == t
  {
    t.(matchScore := t.matchScore + amount)
  }

  /** `updatePlayerCount`. */
  function UpdatePlayerCount(t: Team, amount: int): (u: Team)
    ensures u.playerCount - t.playerCount == amount && u.(playerCount := t.playerCount) == t
  {
    t.(playerCount := t.playerCount + amount)
  }

  /** `updateGoalKeeperCount`. */
  function UpdateGoalKeeperCount(t: Team, amount: int): (u: Team)
    ensures u.goalKeeperCount - t.goalKeeperCount == amount && u.(goalKeeperCount := t.goalKeeperCount) == t
  {
    t.(goalKeeperCount := t.goalKeeperCount + amount)
  }

  /** Adding players or goalkeepers never makes a legal team illegal. */
  lemma GrowingKeepsLegal(t: Team, players: int, keepers: int)
    requires IsLegal(t) && players >= 0 && keepers >= 0
    ensures IsLegal(UpdateGoalKeeperCount(UpdatePlayerCount(t, players), keepers))
  {
  }

  /** `updateTeamGamesPlayed`: one more match for every player of the team. */
  function UpdateTeamGamesPlayed(t: Team): (u: Team)
    ensures u.teamGamesPlayed == t.teamGamesPlayed + 1 && u.(teamGamesPlayed := t.teamGamesPlayed) == t
  {
    t.(teamGamesPlayed := t.teamGamesPlayed + 1)
  }

  /** `resetTeamGamesPlayed`. */
  function ResetTeamGamesPlayed(t: Team): (u: Team)
    ensures u.teamGamesPlayed == 0 && u.(teamGamesPlayed := t.teamGamesPlayed) == t
  {
    t.(teamGamesPlayed := 0)
  }

  /** After n matches the counter has grown by n, and a reset forgets them. */
  function PlayRounds(t: Team, n: nat): (u: Team)
    ensures u.teamGamesPlayed == t.teamGamesPlayed + n
    ensures u.(teamGamesPlayed := t.teamGamesPlayed) == t
    ensures ResetTeamGamesPlayed(u) == ResetTeamGamesPlayed(t)
  {
    if n == 0 then t else UpdateTeamGamesPlayed(PlayRounds(t, n - 1))
  }
}
