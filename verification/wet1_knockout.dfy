/** `knockout_winner` (Wet1/worldcup23a1.cpp): the playable teams whose ids
    lie in a range play a bracket in id order. Round k pairs the entry at
    index j with the one at j + 2^k, for j a multiple of 2^(k+1); the winner
    takes both scores plus three and stays at index j. The champion ends at
    index 0. */
module Wet1Knockout {
  import opened Wet1Team
  import opened Wet1Status

  /** `Pair`: a team id and its running score. */
  datatype Entry = Entry(id: int, score: int)

  /** `simulateMatch`: the second entry wins unless the first scored strictly
      more; the winner carries both scores plus three. */
  function SimulateMatch(a: Entry, b: Entry): (w: Entry)
    ensures w.id == (if a.score <= b.score then b.id else a.id)
    ensures w.score == a.score + b.score + 3
  {
    Entry(if a.score <= b.score then b.id else a.id, a.score + b.score + 3)
  }

  /** One round of the bracket, seen as a sequence of block winners:
      neighbours 2m and 2m+1 play, a last odd one advances alone. */
  function Pairwise(bs: seq<Entry>): (r: seq<Entry>)
    ensures |r| == (|bs| + 1) / 2
  {
    if |bs| <= 1 then bs else [SimulateMatch(bs[0], bs[1])] + Pairwise(bs[2..])
  }

  lemma {:induction false} PairwiseAt(bs: seq<Entry>, m: int)
    requires 0 <= m < (|bs| + 1) / 2
    ensures Pairwise(bs)[m] == if 2 * m + 1 < |bs| then SimulateMatch(bs[2 * m], bs[2 * m + 1]) else bs[2 * m]
  {
    if |bs| > 1 && m > 0 {
      PairwiseAt(bs[2..], m - 1);
    }
  }

  /** The block winners after k rounds. */
  function Level(s: seq<Entry>, k: nat): (r: seq<Entry>)
    ensures |s| >= 1 ==> |r| >= 1
  {
    if k == 0 then s else Pairwise(Level(s, k - 1))
  }

  /** The reference bracket: rounds are played until one entry is left. */
  function Champion(s: seq<Entry>): Entry
    requires |s| >= 1
    decreases |s|
  {
    if |s| == 1 then s[0] else Champion(Pairwise(s))
  }

  function Ids(s: seq<Entry>): set<int> {
    set e | e in s :: e.id
  }

  function TotalScore(s: seq<Entry>): int {
    if s == [] then 0 else s[0].score + TotalScore(s[1..])
  }

  lemma {:induction false} PairwiseFacts(bs: seq<Entry>)
    ensures Ids(Pairwise(bs)) <= Ids(bs)
    ensures TotalScore(Pairwise(bs)) == TotalScore(bs) + 3 * (|bs| / 2)
  {
    if |bs| > 1 {
      PairwiseFacts(bs[2..]);
      assert bs == [bs[0], bs[1]] + bs[2..];
      assert bs[1..][1..] == bs[2..];
      forall id | id in Ids(Pairwise(bs))
        ensures id in Ids(bs)
      {
        var e :| e in Pairwise(bs) && e.id == id;
        if e != Pairwise(bs)[0] {
          assert e in Pairwise(bs[2..]);
          assert id in Ids(Pairwise(bs[2..]));
          assert id in Ids(bs[2..]);
          var f :| f in bs[2..] && f.id == id;
          assert f in bs;
        }
      }
    }
  }

  /** The champion is one of the entrants, and its score is all the
      entrants' scores plus three for each of the n - 1 matches. */
  lemma {:induction false} ChampionFacts(s: seq<Entry>)
    requires |s| >= 1
    ensures Champion(s).id in Ids(s)
    ensures Champion(s).score == TotalScore(s) + 3 * (|s| - 1)
    decreases |s|
  {
    if |s| == 1 {
      assert s[0] in s;
      assert TotalScore(s[1..]) == 0;
    } else {
      PairwiseFacts(s);
      ChampionFacts(Pairwise(s));
    }
  }

  /** A single round changes nothing once one entry is left, so every level
      has the same champion. */
  lemma {:induction false} LevelChampion(s: seq<Entry>, k: nat)
    requires |s| >= 1
    ensures Champion(Level(s, k)) == Champion(s)
  {
    if k > 0 {
      LevelChampion(s, k - 1);
    }
  }

  function Pow2(k: nat): (p: int)
    ensures p >= 1
  {
    if k == 0 then 1 else 2 * Pow2(k - 1)
  }

  /** The array index of block q when blocks are i apart: q * i, written as
      repeated addition. */
  function Pos(q: nat, i: nat): (p: nat)
    ensures q == 0 ==> p == 0
  {
    if q == 0 then 0 else Pos(q - 1, i) + i
  }

  lemma {:induction false} PosDouble(q: nat, i: nat)
    ensures Pos(q, 2 * i) == Pos(2 * q, i)
  {
    if q > 0 {
      PosDouble(q - 1, i);
      assert Pos(2 * q, i) == Pos(2 * q - 2, i) + i + i;
    }
  }

  lemma {:induction false} PosMono(q: nat, r: nat, i: nat)
    requires q <= r
    ensures Pos(q, i) <= Pos(r, i)
    ensures q < r && i >= 1 ==> Pos(q, i) < Pos(r, i)
    decreases r
  {
    if q < r {
      PosMono(q, r - 1, i);
    }
  }

  /** Block q sits at its index and holds v. */
  ghost predicate At(b: seq<Entry>, q: nat, i: nat, v: Entry) {
    Pos(q, i) < |b| && b[Pos(q, i)] == v
  }

  /** The number of blocks fits the array: the last block starts inside it
      and one more would start past its end. */
  ghost predicate Fits(n: int, i: nat, len: nat) {
    len >= 1 && Pos(len - 1, i) < n <= Pos(len, i)
  }

  /** One pass of the inner loop with stride i: before it, index q * i holds
      block winner q of the previous round; after it, index q * 2i holds
      block winner q of the next. */
  method PlayRound(a: seq<Entry>, i: nat, ghost prev: seq<Entry>) returns (b: seq<Entry>)
    requires i >= 1 && Fits(|a|, i, |prev|)
    requires forall q | 0 <= q < |prev| :: At(a, q, i, prev[q])
    ensures |b| == |a| && Fits(|a|, 2 * i, |Pairwise(prev)|)
    ensures forall q | 0 <= q < |Pairwise(prev)| :: At(b, q, 2 * i, Pairwise(prev)[q])
  {
    var n := |a|;
    ghost var next := Pairwise(prev);
    b := a;
    var j := 0;
    ghost var m: nat := 0;
    while j < n
      invariant Playing(b, n, i, prev, m) && j == Pos(2 * m, i)
      invariant j < n <==> 2 * m < |prev|
      decreases n - j
    {
      b := PlayPair(b, i, j, prev, m);
      PosDouble(m, i);
      j := j + 2 * i;
      m := m + 1;
      PosDouble(m, i);
      if 2 * m < |prev| {
        PosMono(2 * m, |prev| - 1, i);
      } else {
        PosMono(|prev|, 2 * m, i);
      }
    }
    PosDouble(|next|, i);
    PosDouble(|next| - 1, i);
    PosMono(|prev|, 2 * |next|, i);
    PosMono(2 * (|next| - 1), |prev| - 1, i);
  }

  /** The state of the inner loop before pair m: blocks below m of the next
      round are in place at stride 2i, blocks from 2m on of the previous
      round still at stride i. */
  ghost predicate Playing(b: seq<Entry>, n: int, i: nat, prev: seq<Entry>, m: nat) {
    && |b| == n && m <= |Pairwise(prev)|
    && (forall q | 0 <= q < m :: At(b, q, 2 * i, Pairwise(prev)[q]))
    && (forall q | 2 * m <= q < |prev| :: At(b, q, i, prev[q]))
  }

  /** One turn of the inner loop: the blocks at j and j + i play when both
      exist, and the winner is written at j. */
  method PlayPair(b: seq<Entry>, i: nat, j: nat, ghost prev: seq<Entry>, ghost m: nat) returns (b': seq<Entry>)
    requires i >= 1 && Fits(|b|, i, |prev|) && Playing(b, |b|, i, prev, m) && 2 * m < |prev| && j == Pos(2 * m, i)
    ensures Playing(b', |b|, i, prev, m + 1)
  {
    assert At(b, 2 * m, i, prev[2 * m]);
    assert Pos(2 * m + 1, i) == j + i;
    if 2 * m + 1 < |prev| {
      PosMono(2 * m + 1, |prev| - 1, i);
    }
    if j + i < |b| {
      assert At(b, 2 * m + 1, i, prev[2 * m + 1]);
    }
    PairwiseAt(prev, m);
    PosDouble(m, i);
    b' := b;
    if j + i < |b| {
      b' := b[j := SimulateMatch(b[j], b[j + i])];
    }
    forall q | 0 <= q < m
      ensures At(b', q, 2 * i, Pairwise(prev)[q])
    {
      PosMono(q, m, 2 * i);
      assert At(b, q, 2 * i, Pairwise(prev)[q]);
    }
    forall q | 2 * m + 2 <= q < |prev|
      ensures At(b', q, i, prev[q])
    {
      PosMono(2 * m, q, i);
      assert At(b, q, i, prev[q]);
    }
  }

  /** The stride loops of `knockout_winner`, on the tournament array. */
  method Tournament(s: seq<Entry>) returns (w: Entry)
    requires |s| >= 1
    ensures w == Champion(s)
    ensures w.id in Ids(s) && w.score == TotalScore(s) + 3 * (|s| - 1)
  {
    var n := |s|;
    var a := s;
    var i := 1;
    ghost var k: nat := 0;
    forall q | 0 <= q < |s|
      ensures At(a, q, 1, s[q])
    {
      PosOne(q);
    }
    PosOne(|s|);
    PosOne(|s| - 1);
    while i < n
      invariant |a| == n && i == Pow2(k) && Fits(n, i, |Level(s, k)|)
      invariant forall q | 0 <= q < |Level(s, k)| :: At(a, q, i, Level(s, k)[q])
      decreases n - i
    {
      a := PlayRound(a, i, Level(s, k));
      i := 2 * i;
      k := k + 1;
    }
    assert |Level(s, k)| == 1;
    assert At(a, 0, i, Level(s, k)[0]);
    w := a[0];
    LevelChampion(s, k);
    ChampionFacts(s);
  }

  lemma {:induction false} PosOne(q: nat)
    ensures Pos(q, 1) == q
  {
    if q > 0 {
      PosOne(q - 1);
    }
  }

  /** The playable teams in the order of their linked list: ascending ids. */
  ghost predicate IdsAscending(ts: seq<Team>) {
    forall a, b :: 0 <= a < b < |ts| ==> ts[a].id < ts[b].id
  }

  /** The reference field: the teams whose ids lie in [minId, maxId], in
      list order. */
  function InRange(ts: seq<Team>, minId: int, maxId: int): seq<Team> {
    if ts == [] then []
    else (if minId <= ts[0].id <= maxId then [ts[0]] else []) + InRange(ts[1..], minId, maxId)
  }

  /** The entries of the tournament array: each team's id and match score. */
  function Entries(ts: seq<Team>): (r: seq<Entry>)
    ensures |r| == |ts| && forall k | 0 <= k < |ts| :: r[k] == Entry(ts[k].id, ts[k].matchScore)
  {
    if ts == [] then [] else [Entry(ts[0].id, ts[0].matchScore)] + Entries(ts[1..])
  }

  /** In an ascending list the teams in range form one run: everything before
      `lo` is below `minId`, everything from `hi` on is above `maxId`. */
  lemma RunIsRange(ts: seq<Team>, minId: int, maxId: int, lo: int, hi: int)
    requires 0 <= lo <= hi <= |ts|
    requires forall k | 0 <= k < lo :: ts[k].id < minId
    requires forall k | lo <= k < hi :: minId <= ts[k].id <= maxId
    requires forall k | hi <= k < |ts| :: ts[k].id > maxId
    ensures InRange(ts, minId, maxId) == ts[lo..hi]
  {
    assert ts == ts[..lo] + ts[lo..hi] + ts[hi..];
    InRangeAppend(ts[..lo] + ts[lo..hi], ts[hi..], minId, maxId);
    InRangeAppend(ts[..lo], ts[lo..hi], minId, maxId);
    InRangeNone(ts[..lo], minId, maxId);
    InRangeAll(ts[lo..hi], minId, maxId);
    InRangeNone(ts[hi..], minId, maxId);
  }

  /** Filtering distributes over concatenation. */
  lemma {:induction false} InRangeAppend(xs: seq<Team>, ys: seq<Team>, minId: int, maxId: int)
    ensures InRange(xs + ys, minId, maxId) == InRange(xs, minId, maxId) + InRange(ys, minId, maxId)
  {
    if xs == [] {
      assert xs + ys == ys;
    } else {
      assert (xs + ys)[0] == xs[0] && (xs + ys)[1..] == xs[1..] + ys;
      InRangeAppend(xs[1..], ys, minId, maxId);
    }
  }

  /** No team in range: nothing is kept. */
  lemma {:induction false} InRangeNone(xs: seq<Team>, minId: int, maxId: int)
    requires forall k | 0 <= k < |xs| :: xs[k].id < minId || xs[k].id > maxId
    ensures InRange(xs, minId, maxId) == []
  {
    if xs != [] {
      InRangeNone(xs[1..], minId, maxId);
    }
  }

  /** Every team in range: everything is kept. */
  lemma {:induction false} InRangeAll(xs: seq<Team>, minId: int, maxId: int)
    requires forall k | 0 <= k < |xs| :: minId <= xs[k].id <= maxId
    ensures InRange(xs, minId, maxId) == xs
  {
    if xs != [] {
      InRangeAll(xs[1..], minId, maxId);
    }
  }

  /** The two list walks of `knockout_winner`: to the first team at or above
      `minId` (where `findEqOrGreater` lands) and on until the first id
      above `maxId`. The run between is exactly the teams in range. */
  method FindField(playable: seq<Team>, minId: int, maxId: int) returns (start: int, teamCount: int)
    requires IdsAscending(playable)
    ensures 0 <= start <= start + teamCount <= |playable|
    ensures playable[start..start + teamCount] == InRange(playable, minId, maxId)
    ensures forall k | start <= k < start + teamCount :: minId <= playable[k].id <= maxId
  {
    start := 0;
    while start < |playable| && playable[start].id < minId
      invariant 0 <= start <= |playable|
      invariant forall k | 0 <= k < start :: playable[k].id < minId
    {
      start := start + 1;
    }
    teamCount := 0;
    while start + teamCount < |playable| && playable[start + teamCount].id <= maxId
      invariant 0 <= teamCount <= |playable| - start
      invariant forall k | start <= k < start + teamCount :: minId <= playable[k].id <= maxId
    {
      teamCount := teamCount + 1;
    }
    forall k | start + teamCount <= k < |playable|
      ensures playable[k].id > maxId
    {
      if k > start + teamCount {
        assert playable[start + teamCount].id < playable[k].id;
      }
    }
    RunIsRange(playable, minId, maxId, start, start + teamCount);
  }

  /** The loop that fills the tournament array. */
  method BuildEntries(field: seq<Team>) returns (tournament: seq<Entry>)
    ensures tournament == Entries(field)
  {
    tournament := [];
    var i := 0;
    while i < |field|
      invariant 0 <= i <= |field| && tournament == Entries(field[..i])
    {
      tournament := tournament + [Entry(field[i].id, field[i].matchScore)];
      i := i + 1;
    }
    assert field[..|field|] == field;
  }

  /** `knockout_winner(minTeamId, maxTeamId)` over the playable teams. */
  method KnockoutWinner(playable: seq<Team>, minId: int, maxId: int) returns (r: Output)
    requires IdsAscending(playable)
    ensures r == Error(InvalidInput) <==> minId < 0 || maxId < 0 || minId > maxId
    ensures r == Error(Failure) <==> 0 <= minId <= maxId && InRange(playable, minId, maxId) == []
    ensures r.Value? ==> r.v == Champion(Entries(InRange(playable, minId, maxId))).id
    ensures r.Value? ==> exists t | t in playable :: t.id == r.v && minId <= r.v <= maxId
    ensures r.Value? || r.Error?
  {
    if minId < 0 || maxId < 0 || minId > maxId {
      return Error(InvalidInput);
    }
    var start, teamCount := FindField(playable, minId, maxId);
    if teamCount == 0 {
      return Error(Failure);
    }
    var field := playable[start..start + teamCount];
    var tournament := BuildEntries(field);
    var winner := Tournament(tournament);
    var e :| e in tournament && e.id == winner.id;
    var w :| 0 <= w < |tournament| && tournament[w] == e;
    assert field[w] == playable[start + w] && field[w].id == Entries(field)[w].id;
    r := Value(winner.id);
  }
}
