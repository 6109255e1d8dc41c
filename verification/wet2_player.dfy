/** The Wet2 player (Wet2/Player.cpp): a record that is also a node of the
    union-find forest. Pointers become ids: `parent` and `team` hold the id
    of the parent player and of the team, `None` for a null pointer. The
    fields `gamesPlayed` and `spirit` are local deltas; a player's actual
    values are resolved along the path to its root (module `UnionFind`). */
module Wet2Player {
  import opened Wrappers

  datatype Player<G> = Player(
    id: int,
    cards: int,
    gamesPlayed: int,
    ability: int,
    isGoalKeeper: bool,
    spirit: G,
    isRoot: bool,
    parent: Option<int>,
    team: Option<int>,
    size: int)

  /** The constructor: the player starts as the root of a group of its own. */
  function NewPlayer<G>(id: int, cards: int, gamesPlayed: int, ability: int, isGoalKeeper: bool,
                        spirit: G, team: Option<int>): (p: Player<G>)
    ensures p.isRoot && p.parent == None && p.size == 1
    ensures p.id == id && p.cards == cards && p.gamesPlayed == gamesPlayed && p.ability == ability
    ensures p.isGoalKeeper == isGoalKeeper && p.spirit == spirit && p.team == team
  {
    Player(id, cards, gamesPlayed, ability, isGoalKeeper, spirit, true, None, team, 1)
  }

  /** `updateGamesPlayed`: adds to the local delta only. */
  function UpdateGamesPlayed<G>(p: Player<G>, amount: int): (q: Player<G>)
    ensures q.gamesPlayed - p.gamesPlayed == amount && q == p.(gamesPlayed := q.gamesPlayed)
  {
    p.(gamesPlayed := p.gamesPlayed + amount)
  }

  /** `updateCards`: adds to the card count and touches nothing else. */
  function UpdateCards<G>(p: Player<G>, amount: int): (q: Player<G>)
    ensures q.cards - p.cards == amount && q == p.(cards := q.cards)
  {
    p.(cards := p.cards + amount)
  }
}
