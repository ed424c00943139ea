/**
 * The pairing step of models/tournament.py (`Tournament._pair_players`): after the
 * ordering pass, a greedy pairing from the front of the ordered roster that avoids
 * repeat games recorded in the tournament's history.
 */
module Pairing {
  import opened Wrappers
  import opened Matches
  import opened Domain
  import opened Ordering

  // ---------- greedy pairing ----------

  /** The first index from `j` on of a player of `rest` that `id` has not met. */
  function FirstFresh(id: string, rest: seq<Player>, hist: seq<(string, string)>, j: nat): (k: Option<nat>)
    requires j <= |rest|
    ensures k.Some? ==> j <= k.value < |rest| && !Met(hist, id, rest[k.value].id)
    ensures forall i :: j <= i < (if k.Some? then k.value else |rest|) ==> Met(hist, id, rest[i].id)
    decreases |rest| - j
  {
    if j == |rest| then None
    else if !Met(hist, id, rest[j].id) then Some(j)
    else FirstFresh(id, rest, hist, j + 1)
  }

  /**
   * `partner_idx`: the position in `rest` of the first player `id` has not met,
   * or 0 when `id` has met all of them.
   */
  function PartnerIndex(id: string, rest: seq<Player>, hist: seq<(string, string)>): (k: nat)
    requires |rest| > 0
    ensures k < |rest|
    ensures forall i :: 0 <= i < k ==> Met(hist, id, rest[i].id)
    ensures Met(hist, id, rest[k].id) ==> k == 0 && forall i :: 0 <= i < |rest| ==> Met(hist, id, rest[i].id)
  {
    match FirstFresh(id, rest, hist, 0)
    case Some(k) => k
    case None => 0
  }

  lemma PairsOfCons(m: Match, ms: seq<Match>)
    ensures PairsOf([m] + ms) == [(m.id1, m.id2)] + PairsOf(ms)
  {
  }

  lemma MatchIdsCons(m: Match, ms: seq<Match>)
    ensures multiset(MatchIds([m] + ms)) == multiset{m.id1, m.id2} + multiset(MatchIds(ms))
  {
    assert ([m] + ms)[1..] == ms;
  }

  /** Taking out the head and the player at `k` of the rest takes out exactly their two ids. */
  lemma PairStepIds(remaining: seq<Player>, k: nat, tail: seq<Match>)
    requires 0 < |remaining| && k < |remaining| - 1
    requires multiset(MatchIds(tail)) == multiset(Ids(remaining[1..][..k] + remaining[1..][k + 1..]))
    ensures multiset(MatchIds([NewMatch(remaining[0].id, remaining[1..][k].id)] + tail)) == multiset(Ids(remaining))
  {
    IdsRemoveAt(remaining[1..], k);
    MatchIdsCons(NewMatch(remaining[0].id, remaining[1..][k].id), tail);
  }

  lemma UnscoredCons(m: Match, ms: seq<Match>)
    requires m.score1 == 0 && m.score2 == 0 && Unscored(ms)
    ensures Unscored([m] + ms)
  {
  }

  /**
   * The pairing loop: the first remaining player meets the partner `PartnerIndex`
   * picks, both leave the list, and their pair joins the history before the next
   * match is formed.
   */
  function Greedy(remaining: seq<Player>, hist: seq<(string, string)>): (ms: seq<Match>)
    requires |remaining| % 2 == 0
    ensures 2 * |ms| == |remaining|
    decreases |remaining|
  {
    if |remaining| == 0 then []
    else
      var p1 := remaining[0];
      var rest := remaining[1..];
      var k := PartnerIndex(p1.id, rest, hist);
      var p2 := rest[k];
      [NewMatch(p1.id, p2.id)] + Greedy(rest[..k] + rest[k + 1..], hist + [(p1.id, p2.id)])
  }

  /**
   * One step of the pairing: the first player `p` is paired with the first player
   * of `rest` they have not met, or with the front of `rest` when they have met
   * everyone; the others are then paired the same way with that pair in the history.
   */
  lemma GreedyStep(p: Player, rest: seq<Player>, hist: seq<(string, string)>) returns (k: nat)
    requires |rest| % 2 == 1
    ensures k < |rest|
    ensures |rest[..k] + rest[k + 1..]| % 2 == 0
    ensures |Greedy([p] + rest, hist)| == |Greedy(rest[..k] + rest[k + 1..], hist + [(p.id, rest[k].id)])| + 1
    ensures Greedy([p] + rest, hist)[0] == NewMatch(p.id, rest[k].id)
    ensures forall j :: 0 <= j < k ==> Met(hist, p.id, rest[j].id)
    ensures Met(hist, p.id, rest[k].id) ==> k == 0 && forall j :: 0 <= j < |rest| ==> Met(hist, p.id, rest[j].id)
    ensures Greedy([p] + rest, hist)[1..] == Greedy(rest[..k] + rest[k + 1..], hist + [(p.id, rest[k].id)])
  {
    k := PartnerIndex(p.id, rest, hist);
    var remaining := [p] + rest;
    assert remaining[0] == p && remaining[1..] == rest;
    assert |remaining| % 2 == 0;
    var tail := Greedy(rest[..k] + rest[k + 1..], hist + [(p.id, rest[k].id)]);
    assert Greedy(remaining, hist) == [NewMatch(p.id, rest[k].id)] + tail;
    assert ([NewMatch(p.id, rest[k].id)] + tail)[1..] == tail;
  }

  /** The pairing uses every remaining player once: its ids are exactly theirs. */
  lemma {:induction false} GreedyCoversPlayers(remaining: seq<Player>, hist: seq<(string, string)>)
    requires |remaining| % 2 == 0
    ensures multiset(MatchIds(Greedy(remaining, hist))) == multiset(Ids(remaining))
    decreases |remaining|
  {
    if |remaining| > 0 {
      var p := remaining[0];
      var rest := remaining[1..];
      assert remaining == [p] + rest;
      var k := GreedyStep(p, rest, hist);
      var ms := Greedy(remaining, hist);
      var tail := Greedy(rest[..k] + rest[k + 1..], hist + [(p.id, rest[k].id)]);
      GreedyCoversPlayers(rest[..k] + rest[k + 1..], hist + [(p.id, rest[k].id)]);
      assert ms == [ms[0]] + ms[1..];
      PairStepIds(remaining, k, tail);
    }
  }

  /** Every match the pairing forms starts without scores. */
  lemma {:induction false} GreedyUnscored(remaining: seq<Player>, hist: seq<(string, string)>)
    requires |remaining| % 2 == 0
    ensures Unscored(Greedy(remaining, hist))
    decreases |remaining|
  {
    if |remaining| > 0 {
      var p := remaining[0];
      var rest := remaining[1..];
      assert remaining == [p] + rest;
      var k := GreedyStep(p, rest, hist);
      var ms := Greedy(remaining, hist);
      GreedyUnscored(rest[..k] + rest[k + 1..], hist + [(p.id, rest[k].id)]);
      assert ms == [ms[0]] + ms[1..];
      UnscoredCons(ms[0], ms[1..]);
    }
  }

  lemma MatchIdsAppend(a: seq<Match>, b: seq<Match>)
    ensures MatchIds(a + b) == MatchIds(a) + MatchIds(b)
  {
    if |a| > 0 {
      assert (a + b)[1..] == a[1..] + b;
      MatchIdsAppend(a[1..], b);
    } else {
      assert a + b == b;
    }
  }

  /** Both players of every match are listed by `MatchIds`. */
  lemma {:induction false} InMatchIds(ms: seq<Match>, j: nat)
    requires j < |ms|
    ensures ms[j].id1 in MatchIds(ms) && ms[j].id2 in MatchIds(ms)
  {
    assert MatchIds(ms) == [ms[0].id1, ms[0].id2] + MatchIds(ms[1..]);
    if j > 0 {
      InMatchIds(ms[1..], j - 1);
      assert ms[1..][j - 1] == ms[j];
    }
  }

  /** Every id of a later match belongs to one of the players the matches were formed from. */
  lemma MatchIdFrom(ms: seq<Match>, players: seq<Player>, j: nat) returns (a: nat, b: nat)
    requires j < |ms|
    requires multiset(MatchIds(ms)) == multiset(Ids(players))
    ensures a < |players| && players[a].id == ms[j].id1
    ensures b < |players| && players[b].id == ms[j].id2
  {
    InMatchIds(ms, j);
    a := IdAt(players, ms[j].id1);
    b := IdAt(players, ms[j].id2);
  }

  lemma IdAt(players: seq<Player>, x: string) returns (a: nat)
    requires x in multiset(Ids(players))
    ensures a < |players| && players[a].id == x
  {
    a :| 0 <= a < |players| && Ids(players)[a] == x;
  }

  /** The history before match `i` is the starting history plus the pairs formed before it. */
  lemma HistoryBefore(ms: seq<Match>, hist: seq<(string, string)>, i: nat)
    requires 0 < i <= |ms|
    ensures hist + PairsOf(ms[..i]) == (hist + [(ms[0].id1, ms[0].id2)]) + PairsOf(ms[1..][..i - 1])
  {
    assert ms[..i] == [ms[0]] + ms[1..][..i - 1];
    PairsOfCons(ms[0], ms[1..][..i - 1]);
  }

  /** Where an element of `rest` with position `k` removed sits in `rest`. */
  lemma IndexWithout<T>(rest: seq<T>, k: nat, a: nat) returns (r: nat)
    requires k < |rest| && a < |rest| - 1
    ensures r < |rest| && (rest[..k] + rest[k + 1..])[a] == rest[r]
  {
    r := if a < k then a else a + 1;
  }

  /**
   * Match `i` is a repeat game, given the history before it, only if its first player
   * had already met both players of every later match.
   */
  predicate ForcedAt(ms: seq<Match>, hist: seq<(string, string)>, i: nat)
    requires i < |ms|
  {
    var h := hist + PairsOf(ms[..i]);
    Met(h, ms[i].id1, ms[i].id2) ==>
      forall j :: i < j < |ms| ==> Met(h, ms[i].id1, ms[j].id1) && Met(h, ms[i].id1, ms[j].id2)
  }

  /** The first match is forced when its pick was forced and the later matches use the other players. */
  lemma FirstForced(p: Player, rest: seq<Player>, hist: seq<(string, string)>, k: nat, ms: seq<Match>)
    requires k < |rest| && |ms| > 0
    requires ms[0] == NewMatch(p.id, rest[k].id)
    requires Met(hist, p.id, rest[k].id) ==> forall j :: 0 <= j < |rest| ==> Met(hist, p.id, rest[j].id)
    requires multiset(MatchIds(ms[1..])) == multiset(Ids(rest[..k] + rest[k + 1..]))
    ensures ForcedAt(ms, hist, 0)
  {
    assert ms[..0] == [];
    if Met(hist, ms[0].id1, ms[0].id2) {
      forall j | 0 < j < |ms|
        ensures Met(hist, p.id, ms[j].id1) && Met(hist, p.id, ms[j].id2)
      {
        LaterMet(p, rest, hist, k, ms, j);
      }
    }
  }

  /** Every player seated after the first match is one `p` has already met. */
  lemma LaterMet(p: Player, rest: seq<Player>, hist: seq<(string, string)>, k: nat, ms: seq<Match>, j: nat)
    requires k < |rest| && 0 < j < |ms|
    requires forall i :: 0 <= i < |rest| ==> Met(hist, p.id, rest[i].id)
    requires multiset(MatchIds(ms[1..])) == multiset(Ids(rest[..k] + rest[k + 1..]))
    ensures Met(hist, p.id, ms[j].id1) && Met(hist, p.id, ms[j].id2)
  {
    assert ms[j] == ms[1..][j - 1];
    var others := rest[..k] + rest[k + 1..];
    var a, b := MatchIdFrom(ms[1..], others, j - 1);
    var ra := IndexWithout(rest, k, a);
    var rb := IndexWithout(rest, k, b);
  }

  /** Whether match `i` is forced is decided the same way once the first match is in the history. */
  lemma ForcedShift(ms: seq<Match>, hist: seq<(string, string)>, i: nat)
    requires 0 < i < |ms|
    requires ForcedAt(ms[1..], hist + [(ms[0].id1, ms[0].id2)], i - 1)
    ensures ForcedAt(ms, hist, i)
  {
    HistoryBefore(ms, hist, i);
    assert ms[i] == ms[1..][i - 1];
    forall j | i < j < |ms|
      ensures ms[j] == ms[1..][j - 1]
    {
    }
  }

  /** The players and history the pairing continues with after forming its first match. */
  lemma GreedyTail(remaining: seq<Player>, hist: seq<(string, string)>) returns (others: seq<Player>, hist': seq<(string, string)>)
    requires |remaining| % 2 == 0 && |remaining| > 0
    ensures |others| % 2 == 0 && |others| == |remaining| - 2
    ensures var ms := Greedy(remaining, hist);
      && hist' == hist + [(ms[0].id1, ms[0].id2)]
      && ms[1..] == Greedy(others, hist')
  {
    var p := remaining[0];
    var rest := remaining[1..];
    assert remaining == [p] + rest;
    var k := GreedyStep(p, rest, hist);
    others := rest[..k] + rest[k + 1..];
    hist' := hist + [(p.id, rest[k].id)];
  }

  /** The first match the pairing forms is a repeat game only when it had to be. */
  lemma FirstRematchForced(remaining: seq<Player>, hist: seq<(string, string)>)
    requires |remaining| % 2 == 0 && |remaining| > 0
    ensures ForcedAt(Greedy(remaining, hist), hist, 0)
  {
    var p := remaining[0];
    var rest := remaining[1..];
    assert remaining == [p] + rest;
    var k := GreedyStep(p, rest, hist);
    GreedyCoversPlayers(rest[..k] + rest[k + 1..], hist + [(p.id, rest[k].id)]);
    FirstForced(p, rest, hist, k, Greedy(remaining, hist));
  }

  /**
   * A repeat game is forced: when match `i` pairs players who already met, its first
   * player had already met both players of every later match.
   */
  lemma {:induction false} RematchOnlyWhenForced(remaining: seq<Player>, hist: seq<(string, string)>, i: nat)
    requires |remaining| % 2 == 0
    requires i < |Greedy(remaining, hist)|
    ensures ForcedAt(Greedy(remaining, hist), hist, i)
    decreases |remaining|
  {
    if i == 0 {
      FirstRematchForced(remaining, hist);
    } else {
      var others, hist' := GreedyTail(remaining, hist);
      RematchOnlyWhenForced(others, hist', i - 1);
      ForcedShift(Greedy(remaining, hist), hist, i);
    }
  }

  // ---------- the pairing call ----------

  /**
   * `_pair_players`: refuses an odd roster before touching anything; otherwise the
   * roster takes the chosen order, the matches are formed greedily and the history
   * grows by one pair per match, in match order. Returns the tournament as left
   * and the matches.
   */
  function PairPlayers(t: Tournament, order: seq<Player>): (res: (Tournament, Result<seq<Match>, Error>))
    requires ShuffleOutcome(t.players, t.currentRoundIndex == 0, order)
    ensures res.1.Err? <==> |t.players| % 2 != 0
    ensures res.1.Err? ==> res.1.error == OddRoster && res.0 == t
    ensures res.1.Ok? ==> res.0 == t.(players := order, history := t.history + PairsOf(res.1.value))
    ensures res.1.Ok? ==> 2 * |res.1.value| == |t.players|
    ensures res.1.Ok? ==> multiset(MatchIds(res.1.value)) == multiset(Ids(t.players))
    ensures res.1.Ok? ==> Unscored(res.1.value)
  {
    if |t.players| % 2 != 0 then (t, Err(OddRoster))
    else
      var ms := Greedy(order, t.history);
      GreedyCoversPlayers(order, t.history);
      GreedyUnscored(order, t.history);
      IdsPermutation(order, t.players);
      (t.(players := order, history := t.history + PairsOf(ms)), Ok(ms))
  }

  /** With distinct ids, every roster player is in exactly one of the new matches. */
  lemma PairingCoversRoster(t: Tournament, order: seq<Player>, i: nat)
    requires ShuffleOutcome(t.players, t.currentRoundIndex == 0, order)
    requires |t.players| % 2 == 0 && UniqueIds(t.players) && i < |t.players|
    ensures multiset(MatchIds(PairPlayers(t, order).1.value))[t.players[i].id] == 1
  {
    UniqueIdsCount(t.players, i);
  }
}
