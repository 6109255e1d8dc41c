/** The Wet1 player (Wet1/Player.cpp). The `team` pointer becomes the team's
    id. The stored `gamesPlayed` is a local count: a player's actual games
    are the local count plus its team's `teamGamesPlayed`, which is bumped
    once per match for the whole team. */
module Wet1Player {
  import opened Orders

  datatype Player = Player(id: int, goals: int, cards: int, gamesPlayed: int, isGoalKeeper: bool, team: int)

  /** The part of a player the sorted-players tree compares. */
  datatype Rank = Rank(goals: int, cards: int, id: int)

  function RankOf(p: Player): Rank {
    Rank(p.goals, p.cards, p.id)
  }

  /** `operator<`, branch by branch. */
  predicate Less(a: Player, b: Player) {
    if a.goals < b.goals then true
    else if a.goals == b.goals && a.cards > b.cards then true
    else if a.goals == b.goals && a.cards == b.cards then a.id < b.id
    else false
  }

  /** `operator>`: the other player is smaller. */
  predicate Greater(a: Player, b: Player) {
    Less(b, a)
  }

  /** `operator==`: players are the same player when their ids agree. */
  predicate Same(a: Player, b: Player) {
    a.id == b.id
  }

  /** The reference order on ranks: goals ascending, then cards descending,
      then id ascending. */
  predicate RankLess(a: Rank, b: Rank) {
    || a.goals < b.goals
    || (a.goals == b.goals && b.cards < a.cards)
    || (a.goals == b.goals && a.cards == b.cards && a.id < b.id)
  }

  /** `operator<` compares the ranks lexicographically and nothing else. */
  lemma LessIsLexicographic(a: Player, b: Player)
    ensures Less(a, b) <==> RankLess(RankOf(a), RankOf(b))
  {
  }

  /** The rank order is what the trees need from a key comparator. */
  lemma RankLessIsTotal()
    ensures StrictTotalOrder(RankLess)
  {
  }

  /** On players: irreflexive and transitive, and any two players with
      different ids are comparable. */
  lemma LessOrdersPlayers(a: Player, b: Player, c: Player)
    ensures !Less(a, a)
    ensures Less(a, b) && Less(b, c) ==> Less(a, c)
    ensures a.id != b.id ==> Less(a, b) || Less(b, a)
  {
  }

  /** The trees treat "neither smaller nor greater" as a match. As long as
      one id stands for one player (equal ids carry equal stats), exactly
      one of `<`, `>` and `==` holds, so a tree match is `operator==`. */
  lemma ComparatorsAgree(a: Player, b: Player)
    requires a.id == b.id ==> RankOf(a) == RankOf(b)
    ensures Greater(a, b) <==> Less(b, a)
    ensures Same(a, b) <==> !Less(a, b) && !Greater(a, b)
    ensures !(Less(a, b) && Greater(a, b))
  {
  }

  /** `updateStats`: each delta is added to its own counter. */
  function UpdateStats(p: Player, addGames: int, addGoals: int, addCards: int): (q: Player)
    ensures q.gamesPlayed - p.gamesPlayed == addGames
    ensures q.goals - p.goals == addGoals && q.cards - p.cards == addCards
    ensures q.id == p.id && q.isGoalKeeper == p.isGoalKeeper && q.team == p.team
  {
    p.(gamesPlayed := p.gamesPlayed + addGames, goals := p.goals + addGoals, cards := p.cards + addCards)
  }

  /** Two updates in a row are one update by the summed deltas, and the zero
      update changes nothing. */
  lemma UpdateStatsAdds(p: Player, g1: int, s1: int, c1: int, g2: int, s2: int, c2: int)
    ensures UpdateStats(UpdateStats(p, g1, s1, c1), g2, s2, c2) == UpdateStats(p, g1 + g2, s1 + s2, c1 + c2)
    ensures UpdateStats(p, 0, 0, 0) == p
  {
  }

  /** An update moves the player in the sorted order: up when it scores,
      down when it only collects cards, nowhere when neither changes. This
      is why `update_player_stats` takes the player out of the sorted tree
      and puts it back. */
  lemma UpdateStatsMoves(p: Player, addGames: int, addGoals: int, addCards: int)
    requires addGoals >= 0 && addCards >= 0
    ensures addGoals > 0 ==> Less(p, UpdateStats(p, addGames, addGoals, addCards))
    ensures addGoals == 0 && addCards > 0 ==> Less(UpdateStats(p, addGames, addGoals, addCards), p)
    ensures addGoals == 0 && addCards == 0 ==> RankOf(UpdateStats(p, addGames, addGoals, addCards)) == RankOf(p)
  {
  }

  /** `getGamesPlayed`, with the team's counter passed in: the player's
      actual games are its local count plus the team's. */
  function GamesPlayed(p: Player, teamGamesPlayed: int): (games: int)
    ensures games - teamGamesPlayed == p.gamesPlayed
  {
    p.gamesPlayed + teamGamesPlayed
  }

  /** Moving games from the team counter into the player's local count (what
      `unite_teams` does before the new team's counter starts at zero) keeps
      the player's actual games. */
  lemma FoldTeamGames(p: Player, teamGamesPlayed: int, newTeam: int)
    ensures GamesPlayed(UpdateStats(p, teamGamesPlayed, 0, 0).(team := newTeam), 0) == GamesPlayed(p, teamGamesPlayed)
  {
  }
}
