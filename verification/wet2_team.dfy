/** The Wet2 team record (Wet2/Team.cpp). `teamSet`, a pointer to the root
    player of the team's union-find group, becomes that player's id. */
module Wet2Team {
  import opened Wrappers
  import opened Orders
  import opened Group

  datatype Team<G> = Team(
    id: int,
    points: int,
    teamAbility: int,
    hasGoalKeeper: bool,
    teamSpirit: G,
    teamSet: Option<int>)

  /** The constructor: no points, no ability, no goalkeeper, the neutral
      spirit and no group of players. */
  function NewTeam<G>(ops: GroupOps<G>, id: int): (t: Team<G>)
    ensures t.id == id && t.points == 0 && t.teamAbility == 0
    ensures !t.hasGoalKeeper && t.teamSpirit == ops.neutral && t.teamSet == None
  {
    Team(id, 0, 0, false, ops.neutral, None)
  }

  /** `isLegal`: a team may play once it has a goalkeeper. */
  predicate IsLegal<G>(t: Team<G>) {
    t.hasGoalKeeper
  }

  /** `updateHasGoalKeeper`: the flag is or-ed in, never cleared. */
  function UpdateHasGoalKeeper<G>(t: Team<G>, gk: bool): (u: Team<G>)
    ensures IsLegal(u) <==> IsLegal(t) || gk
    ensures u.(hasGoalKeeper := t.hasGoalKeeper) == t
  {
    t.(hasGoalKeeper := t.hasGoalKeeper || gk)
  }

  /** Whatever players join, a legal team stays legal, and a team is legal
      exactly when one of the joining players was a goalkeeper. */
  lemma {:induction false} LegalIsMonotone<G>(t: Team<G>, gks: seq<bool>)
    ensures IsLegal(AddKeepers(t, gks)) <==> IsLegal(t) || true in gks
  {
    if gks != [] {
      LegalIsMonotone(t, gks[..|gks| - 1]);
      assert gks == gks[..|gks| - 1] + [gks[|gks| - 1]];
    }
  }

  /** The goalkeeper flags of several joining players, in order. */
  function AddKeepers<G>(t: Team<G>, gks: seq<bool>): Team<G> {
    if gks == [] then t else UpdateHasGoalKeeper(AddKeepers(t, gks[..|gks| - 1]), gks[|gks| - 1])
  }

  /** `updatePoints`. */
  function UpdatePoints<G>(t: Team<G>, amount: int): (u: Team<G>)
    ensures u.points - t.points == amount && u.(points := t.points) == t
  {
    t.(points := t.points + amount)
  }

  /** `updateAbility`. */
  function UpdateAbility<G>(t: Team<G>, amount: int): (u: Team<G>)
    ensures u.teamAbility - t.teamAbility == amount && u.(teamAbility := t.teamAbility) == t
  {
    t.(teamAbility := t.teamAbility + amount)
  }

  /** `setTeamSet`. */
  function SetTeamSet<G>(t: Team<G>, root: Option<int>): (u: Team<G>)
    ensures u.teamSet == root && u.(teamSet := t.teamSet) == t
  {
    t.(teamSet := root)
  }

  /** `updateTeamSpirit`: the new spirit multiplies on the right. */
  function UpdateTeamSpirit<G>(ops: GroupOps<G>, t: Team<G>, spirit: G): (u: Team<G>)
    ensures u.(teamSpirit := t.teamSpirit) == t
    ensures u.teamSpirit == ops.mul(t.teamSpirit, spirit)
  {
    t.(teamSpirit := ops.mul(t.teamSpirit, spirit))
  }

  /** The product of spirits in order: s[0] * s[1] * ... */
  function Product<G>(ops: GroupOps<G>, s: seq<G>): G {
    if s == [] then ops.neutral else ops.mul(Product(ops, s[..|s| - 1]), s[|s| - 1])
  }

  /** The spirits of several joining players, in order. */
  function AddSpirits<G>(ops: GroupOps<G>, t: Team<G>, s: seq<G>): Team<G> {
    if s == [] then t else UpdateTeamSpirit(ops, AddSpirits(ops, t, s[..|s| - 1]), s[|s| - 1])
  }

  /** A team built from scratch has as spirit the product of its players'
      spirits in the order they joined. The group is not commutative, so
      the order matters. */
  lemma {:induction false} SpiritIsProduct<G>(ops: GroupOps<G>, id: int, s: seq<G>)
    ensures AddSpirits(ops, NewTeam(ops, id), s).teamSpirit == Product(ops, s)
    ensures AddSpirits(ops, NewTeam(ops, id), s).(teamSpirit := ops.neutral) == NewTeam(ops, id)
  {
    if s != [] {
      SpiritIsProduct(ops, id, s[..|s| - 1]);
    }
  }

  /** Joining players one batch after another multiplies the batches'
      products: t * (a * b) == (t * a) * b. */
  lemma {:induction false} SpiritBatches<G(!new)>(ops: GroupOps<G>, t: Team<G>, a: seq<G>, b: seq<G>)
    requires IsGroup(ops)
    ensures AddSpirits(ops, t, a + b).teamSpirit == ops.mul(AddSpirits(ops, t, a).teamSpirit, Product(ops, b))
  {
    if b == [] {
      assert a + b == a;
      assert NeutralAt(ops, AddSpirits(ops, t, a).teamSpirit);
    } else {
      var b' := b[..|b| - 1];
      assert (a + b)[..|a + b| - 1] == a + b';
      assert (a + b)[|a + b| - 1] == b[|b| - 1];
      SpiritBatches(ops, t, a, b');
      assert AssocAt(ops, AddSpirits(ops, t, a).teamSpirit, Product(ops, b'), b[|b| - 1]);
    }
  }

  /** `operator<`, branch by branch. */
  predicate Less<G>(a: Team<G>, b: Team<G>) {
    if a.teamAbility < b.teamAbility then true
    else if a.teamAbility == b.teamAbility then a.id < b.id
    else false
  }

  /** `operator>`. */
  predicate Greater<G>(a: Team<G>, b: Team<G>) {
    Less(b, a)
  }

  /** `operator==`: the same team when the ids agree. */
  predicate Same<G>(a: Team<G>, b: Team<G>) {
    a.id == b.id
  }

  /** The part of a team the ability tree compares. */
  datatype Rank = Rank(ability: int, id: int)

  function RankOf<G>(t: Team<G>): Rank {
    Rank(t.teamAbility, t.id)
  }

  /** The reference order on ranks: ability, then id. */
  predicate RankLess(a: Rank, b: Rank) {
    a.ability < b.ability || (a.ability == b.ability && a.id < b.id)
  }

  lemma LessIsLexicographic<G>(a: Team<G>, b: Team<G>)
    ensures Less(a, b) <==> RankLess(RankOf(a), RankOf(b))
  {
  }

  lemma RankLessIsTotal()
    ensures StrictTotalOrder(RankLess)
  {
  }

  /** On teams: irreflexive, transitive, and total on distinct ids. */
  lemma LessOrdersTeams<G>(a: Team<G>, b: Team<G>, c: Team<G>)
    ensures !Less(a, a)
    ensures Less(a, b) && Less(b, c) ==> Less(a, c)
    ensures a.id != b.id ==> Less(a, b) || Less(b, a)
  {
  }

  /** When one id stands for one team, exactly one of `<`, `>` and `==`
      holds. */
  lemma ComparatorsAgree<G>(a: Team<G>, b: Team<G>)
    requires a.id == b.id ==> a.teamAbility == b.teamAbility
    ensures Greater(a, b) <==> Less(b, a)
    ensures Same(a, b) <==> !Less(a, b) && !Greater(a, b)
    ensures !(Less(a, b) && Greater(a, b))
  {
  }
}
