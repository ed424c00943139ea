/**
 * The round life cycle of models/tournament.py: `start_next_round`, `record_results`,
 * `_recalculate_points` and `_file_path`, with the invariants they keep — the round
 * counter matches the rounds played, the history only grows, and every player's
 * points are the sum of the scores recorded for them.
 */
module Lifecycle {
  import opened Wrappers
  import opened Matches
  import opened Domain
  import opened Ordering
  import opened Pairing
  import Text

  // ---------- invariants ----------

  /** `current_round_index` counts the rounds created so far. */
  predicate RoundCountInv(t: Tournament) {
    t.currentRoundIndex == |t.rounds|
  }

  /** Every player's points are the sum of the scores recorded for them in all rounds. */
  predicate PointsConsistent(t: Tournament) {
    forall i :: 0 <= i < |t.players| ==> t.players[i].points == TotalScore(t.rounds, t.players[i].id)
  }

  // ---------- start_next_round ----------

  /** The name of the round created when `index` rounds exist: `Round {index + 1}`. */
  function RoundName(index: int): (s: string)
    ensures |s| > 6 && s[..6] == "Round "
    ensures index + 1 >= 0 ==> Text.IsDigits(s[6..]) && Text.DigitsValue(s[6..]) == index + 1
    ensures index + 1 < 0 ==> s[6] == '-' && Text.IsDigits(s[7..]) && Text.DigitsValue(s[7..]) == -(index + 1)
  {
    if index + 1 >= 0 then
      var digits := Text.NatToString(index + 1);
      Text.NatToStringRoundTrip(index + 1);
      assert ("Round " + digits)[6..] == digits;
      "Round " + digits
    else
      var digits := Text.NatToString(-(index + 1));
      Text.NatToStringRoundTrip(-(index + 1));
      assert ("Round -" + digits)[7..] == digits;
      "Round -" + digits
  }

  /** Rounds created at different counts get different names. */
  lemma RoundNamesDiffer(i: nat, j: nat)
    requires i != j
    ensures RoundName(i) != RoundName(j)
  {
  }

  /**
   * `start_next_round`: refused when every planned round exists, and (through the
   * pairing) on an odd roster, in both cases leaving the tournament as it was;
   * otherwise one open round holding the new pairing is appended, the counter moves
   * on and the tournament is in progress. `order` is the result of the ordering pass.
   */
  function StartNextRound(t: Tournament, order: seq<Player>, now: int): (o: Outcome)
    requires ShuffleOutcome(t.players, t.currentRoundIndex == 0, order)
    ensures t.currentRoundIndex >= t.totalRounds ==> o == Outcome(t, Some(RoundsExhausted))
    ensures t.currentRoundIndex < t.totalRounds && |t.players| % 2 != 0 ==> o == Outcome(t, Some(OddRoster))
    ensures o.raised.None? <==> t.currentRoundIndex < t.totalRounds && |t.players| % 2 == 0
    ensures o.raised.None? ==>
      && |o.t.rounds| == |t.rounds| + 1
      && o.t == t.(players := order, rounds := o.t.rounds, history := o.t.history,
                   currentRoundIndex := t.currentRoundIndex + 1, status := InProgress)
      && o.t.rounds[..|t.rounds|] == t.rounds
      && o.t.rounds[|t.rounds|] == OpenRound(RoundName(t.currentRoundIndex), Greedy(order, t.history), now)
      && o.t.history == t.history + PairsOf(o.t.rounds[|t.rounds|].matches)
  {
    if t.currentRoundIndex >= t.totalRounds then Outcome(t, Some(RoundsExhausted))
    else
      var (t1, res) := PairPlayers(t, order);
      match res
      case Err(e) => Outcome(t1, Some(e))
      case Ok(ms) =>
        var rounds := t1.rounds + [OpenRound(RoundName(t.currentRoundIndex), ms, now)];
        assert rounds[..|t.rounds|] == t.rounds;
        Outcome(t1.(rounds := rounds, currentRoundIndex := t.currentRoundIndex + 1, status := InProgress), None)
  }

  /** Starting a round keeps the round counter in step with the rounds. */
  lemma StartKeepsRoundCount(t: Tournament, order: seq<Player>, now: int)
    requires ShuffleOutcome(t.players, t.currentRoundIndex == 0, order)
    requires RoundCountInv(t)
    ensures RoundCountInv(StartNextRound(t, order, now).t)
  {
  }

  /** The history is only ever extended: one pair per new match, after the old entries. */
  lemma StartExtendsHistory(t: Tournament, order: seq<Player>, now: int)
    requires ShuffleOutcome(t.players, t.currentRoundIndex == 0, order)
    ensures var o := StartNextRound(t, order, now);
      && |t.history| <= |o.t.history|
      && o.t.history[..|t.history|] == t.history
      && (o.raised.None? ==> |o.t.history| == |t.history| + |t.players| / 2)
  {
    var o := StartNextRound(t, order, now);
    if o.raised.None? {
      assert o.t.history[..|t.history|] == t.history;
    }
  }

  /** The new round starts unscored, so points stay the sum of the recorded scores. */
  lemma StartKeepsPoints(t: Tournament, order: seq<Player>, now: int)
    requires ShuffleOutcome(t.players, t.currentRoundIndex == 0, order)
    requires PointsConsistent(t)
    ensures PointsConsistent(StartNextRound(t, order, now).t)
  {
    var o := StartNextRound(t, order, now);
    if o.raised.None? {
      var ms := Greedy(order, t.history);
      GreedyUnscored(order, t.history);
      assert o.t.rounds == t.rounds + [OpenRound(RoundName(t.currentRoundIndex), ms, now)];
      forall i | 0 <= i < |order|
        ensures order[i].points == TotalScore(o.t.rounds, order[i].id)
      {
        PermutedKeepsPoints(t, order, i);
        AppendUnscored(t.rounds, OpenRound(RoundName(t.currentRoundIndex), ms, now), order[i].id);
      }
    }
  }

  /** A player of a permuted roster has the points its entry had in the original roster. */
  lemma PermutedKeepsPoints(t: Tournament, order: seq<Player>, i: nat)
    requires PointsConsistent(t)
    requires multiset(order) == multiset(t.players) && i < |order|
    ensures order[i].points == TotalScore(t.rounds, order[i].id)
  {
    assert order[i] in multiset(t.players);
    var j :| 0 <= j < |t.players| && t.players[j] == order[i];
  }

  /** An unscored round adds nothing to anyone's total. */
  lemma AppendUnscored(rs: seq<Round>, r: Round, id: string)
    requires Unscored(r.matches)
    ensures TotalScore(rs + [r], id) == TotalScore(rs, id)
  {
    UnscoredScoreZero(r.matches, id);
    TotalScoreSnoc(rs, r, id);
  }

  /** Matches without scores credit nobody. */
  lemma {:induction false} UnscoredScoreZero(ms: seq<Match>, id: string)
    requires Unscored(ms)
    ensures MatchesScore(ms, id) == 0
  {
    if |ms| > 0 {
      UnscoredScoreZero(ms[..|ms| - 1], id);
    }
  }

  lemma TotalScoreSnoc(rs: seq<Round>, r: Round, id: string)
    ensures TotalScore(rs + [r], id) == TotalScore(rs, id) + MatchesScore(r.matches, id)
  {
    assert (rs + [r])[..|rs|] == rs;
  }

  // ---------- _recalculate_points ----------

  /** The roster with every player's points reset to zero. */
  function ZeroPoints(ps: seq<Player>): (r: seq<Player>)
    ensures SameRoster(r, ps)
    ensures forall i :: 0 <= i < |r| ==> r[i].points == 0
  {
    seq(|ps|, i requires 0 <= i < |ps| => ps[i].(points := 0))
  }

  /** Adds the scores of one match to the roster entries of its two players. */
  function CreditMatch(ps: seq<Player>, m: Match): (r: seq<Player>)
    ensures SameRoster(r, ps)
    ensures forall i :: 0 <= i < |ps| ==> r[i].points == ps[i].points + MatchCredit(m, ps[i].id)
  {
    Credit(Credit(ps, m.id1, m.score1), m.id2, m.score2)
  }

  /** Credits every match in turn. */
  function CreditMatches(ps: seq<Player>, ms: seq<Match>): (r: seq<Player>)
    ensures |r| == |ps|
  {
    if |ms| == 0 then ps else CreditMatch(CreditMatches(ps, ms[..|ms| - 1]), ms[|ms| - 1])
  }

  /** Credits every match of every round in turn. */
  function CreditRounds(ps: seq<Player>, rs: seq<Round>): (r: seq<Player>)
    ensures |r| == |ps|
  {
    if |rs| == 0 then ps else CreditMatches(CreditRounds(ps, rs[..|rs| - 1]), rs[|rs| - 1].matches)
  }

  lemma {:induction false} CreditMatchesTotals(ps: seq<Player>, ms: seq<Match>)
    ensures SameRoster(CreditMatches(ps, ms), ps)
    ensures forall i :: 0 <= i < |ps| ==> CreditMatches(ps, ms)[i].points == ps[i].points + MatchesScore(ms, ps[i].id)
  {
    if |ms| > 0 {
      CreditMatchesTotals(ps, ms[..|ms| - 1]);
    }
  }

  lemma {:induction false} CreditRoundsTotals(ps: seq<Player>, rs: seq<Round>)
    ensures SameRoster(CreditRounds(ps, rs), ps)
    ensures forall i :: 0 <= i < |ps| ==> CreditRounds(ps, rs)[i].points == ps[i].points + TotalScore(rs, ps[i].id)
  {
    if |rs| > 0 {
      CreditRoundsTotals(ps, rs[..|rs| - 1]);
      CreditMatchesTotals(CreditRounds(ps, rs[..|rs| - 1]), rs[|rs| - 1].matches);
    }
  }

  /**
   * `_recalculate_points`: every player restarts from zero, then every stored score of
   * every match of every round is added to its player. Only points change.
   */
  function Recalculate(t: Tournament): (r: Tournament)
    ensures r == t.(players := r.players)
    ensures SameRoster(r.players, t.players)
  {
    var ps := CreditRounds(ZeroPoints(t.players), t.rounds);
    CreditRoundsTotals(ZeroPoints(t.players), t.rounds);
    t.(players := ps)
  }

  /** After recalculation each player's points are exactly their recorded scores. */
  lemma RecalculateConsistent(t: Tournament)
    ensures PointsConsistent(Recalculate(t))
    ensures forall i :: 0 <= i < |t.players| ==> Recalculate(t).players[i].points == TotalScore(t.rounds, t.players[i].id)
  {
    CreditRoundsTotals(ZeroPoints(t.players), t.rounds);
  }

  /** Recalculation depends only on the roster's identities and the rounds, not on earlier points. */
  lemma RecalculateIgnoresPoints(t: Tournament, ps: seq<Player>)
    requires SameRoster(ps, t.players)
    ensures Recalculate(t.(players := ps)) == Recalculate(t)
  {
    var a := Recalculate(t.(players := ps)).players;
    var b := Recalculate(t).players;
    RecalculateConsistent(t);
    RecalculateConsistent(t.(players := ps));
    assert |a| == |b|;
    forall i | 0 <= i < |a|
      ensures a[i] == b[i]
    {
      assert a[i].(points := 0) == ps[i].(points := 0) == t.players[i].(points := 0) == b[i].(points := 0);
      assert ps[i].id == t.players[i].id;
    }
  }

  /** Recalculating twice gives the same tournament as recalculating once. */
  lemma RecalculateIdempotent(t: Tournament)
    ensures Recalculate(Recalculate(t)) == Recalculate(t)
  {
    RecalculateIgnoresPoints(t, Recalculate(t).players);
  }

  /** On a tournament whose points are already consistent, recalculation changes nothing. */
  lemma RecalculateFixesConsistent(t: Tournament)
    requires PointsConsistent(t)
    ensures Recalculate(t) == t
  {
    RecalculateConsistent(t);
    var r := Recalculate(t).players;
    forall i | 0 <= i < |r|
      ensures r[i] == t.players[i]
    {
      assert r[i].(points := 0) == t.players[i].(points := 0);
    }
  }

  // ---------- record_results ----------

  /** Two round lists agree on everything except the scores stored in their matches. */
  predicate SameShape(a: seq<Round>, b: seq<Round>) {
    |a| == |b| && forall i :: 0 <= i < |a| ==> SameRoundShape(a[i], b[i])
  }

  predicate SameRoundShape(x: Round, y: Round) {
    && x.name == y.name && x.startTime == y.startTime && x.endTime == y.endTime
    && |x.matches| == |y.matches|
    && forall j :: 0 <= j < |x.matches| ==> x.matches[j].id1 == y.matches[j].id1 && x.matches[j].id2 == y.matches[j].id2
  }

  /**
   * The round and match positions `rounds[r_idx].matches[m_idx]` resolves an entry to,
   * negative indices counting from the end; `None` is the IndexError.
   */
  function Address(rs: seq<Round>, e: Entry): (a: Option<(nat, nat)>)
    ensures a.Some? ==> a.value.0 < |rs| && a.value.1 < |rs[a.value.0].matches|
  {
    match PyIndex(|rs|, e.roundIndex)
    case None => None
    case Some(rk) =>
      match PyIndex(|rs[rk].matches|, e.matchIndex)
      case None => None
      case Some(mk) => Some((rk, mk))
  }

  /** Rounds of the same shape resolve every entry to the same match. */
  lemma AddressShape(a: seq<Round>, b: seq<Round>, e: Entry)
    requires SameShape(a, b)
    ensures Address(a, e) == Address(b, e)
    ensures Address(a, e).Some? ==>
      var (rk, mk) := Address(a, e).value;
      a[rk].matches[mk].id1 == b[rk].matches[mk].id1 && a[rk].matches[mk].id2 == b[rk].matches[mk].id2
  {
    match PyIndex(|a|, e.roundIndex)
    case None =>
    case Some(rk) =>
      assert SameRoundShape(a[rk], b[rk]);
  }

  /** `match.scores = (s1, s2)` on the match at (`rk`, `mk`): no other match changes. */
  function SetScores(rs: seq<Round>, rk: nat, mk: nat, s1: int, s2: int): (r: seq<Round>)
    requires rk < |rs| && mk < |rs[rk].matches|
    ensures SameShape(rs, r)
    ensures r[rk].matches[mk].score1 == s1 && r[rk].matches[mk].score2 == s2
    ensures forall i, j :: 0 <= i < |rs| && 0 <= j < |rs[i].matches| && (i != rk || j != mk) ==>
      r[i].matches[j] == rs[i].matches[j]
  {
    var m := rs[rk].matches[mk];
    rs[rk := rs[rk].(matches := rs[rk].matches[mk := m.(score1 := s1, score2 := s2)])]
  }

  /** What entry `e` adds to the player `id`: its scores for the two players of the match it addresses. */
  function EntryCredit(rs: seq<Round>, e: Entry, id: string): int {
    match Address(rs, e)
    case None => 0
    case Some((rk, mk)) =>
      var m := rs[rk].matches[mk];
      MatchCredit(Match(m.id1, m.id2, e.score1, e.score2), id)
  }

  function EntriesCredit(rs: seq<Round>, es: seq<Entry>, id: string): int {
    if |es| == 0 then 0 else EntryCredit(rs, es[0], id) + EntriesCredit(rs, es[1..], id)
  }

  /**
   * One pass of the `record_results` loop: the addressed match takes the entry's
   * scores and its two players gain them; an entry that addresses nothing is the
   * IndexError. Only rounds and points change.
   */
  function ApplyEntry(t: Tournament, e: Entry): (r: Result<Tournament, Error>)
    ensures r.Err? <==> Address(t.rounds, e).None?
    ensures r.Err? ==> r.error == IndexOutOfRange
    ensures r.Ok? ==> r.value == t.(rounds := r.value.rounds, players := r.value.players)
    ensures r.Ok? ==> SameShape(t.rounds, r.value.rounds) && SameRoster(r.value.players, t.players)
    ensures r.Ok? ==> forall i :: 0 <= i < |t.players| ==>
      r.value.players[i].points == t.players[i].points + EntryCredit(t.rounds, e, t.players[i].id)
  {
    match Address(t.rounds, e)
    case None => Err(IndexOutOfRange)
    case Some((rk, mk)) =>
      var m := t.rounds[rk].matches[mk];
      var ps := CreditMatch(t.players, Match(m.id1, m.id2, e.score1, e.score2));
      Ok(t.(rounds := SetScores(t.rounds, rk, mk, e.score1, e.score2), players := ps))
  }

  /**
   * The `record_results` loop: entries apply in order, and the first one that
   * addresses nothing stops it with an IndexError, the earlier ones already applied.
   */
  function ApplyEntries(t: Tournament, es: seq<Entry>): (r: (Tournament, Option<Error>))
    ensures r.0 == t.(rounds := r.0.rounds, players := r.0.players)
    ensures |r.0.rounds| == |t.rounds| && |r.0.players| == |t.players|
    decreases |es|
  {
    if |es| == 0 then (t, None)
    else
      match ApplyEntry(t, es[0])
      case Err(err) => (t, Some(err))
      case Ok(t1) => ApplyEntries(t1, es[1..])
  }

  lemma SameShapeTrans(a: seq<Round>, b: seq<Round>, c: seq<Round>)
    requires SameShape(a, b) && SameShape(b, c)
    ensures SameShape(a, c)
  {
    forall i | 0 <= i < |a|
      ensures SameRoundShape(a[i], c[i])
    {
      assert SameRoundShape(a[i], b[i]) && SameRoundShape(b[i], c[i]);
    }
  }

  lemma SameShapeRefl(a: seq<Round>)
    ensures SameShape(a, a)
  {
  }

  /** The loop changes scores and points only: the rounds keep their shape and the roster its players. */
  lemma {:induction false} ApplyEntriesShape(t: Tournament, es: seq<Entry>)
    ensures SameShape(t.rounds, ApplyEntries(t, es).0.rounds)
    ensures SameRoster(ApplyEntries(t, es).0.players, t.players)
    decreases |es|
  {
    if |es| == 0 || ApplyEntry(t, es[0]).Err? {
      SameShapeRefl(t.rounds);
    } else {
      var t1 := ApplyEntry(t, es[0]).value;
      ApplyEntriesShape(t1, es[1..]);
      SameShapeTrans(t.rounds, t1.rounds, ApplyEntries(t1, es[1..]).0.rounds);
    }
  }

  /** The loop raises exactly when some entry addresses no match, and then it is an IndexError. */
  lemma {:induction false} ApplyEntriesFails(t: Tournament, es: seq<Entry>)
    ensures ApplyEntries(t, es).1.Some? <==> exists k :: 0 <= k < |es| && Address(t.rounds, es[k]).None?
    ensures ApplyEntries(t, es).1.Some? ==> ApplyEntries(t, es).1.value == IndexOutOfRange
    decreases |es|
  {
    if |es| > 0 && ApplyEntry(t, es[0]).Ok? {
      var t1 := ApplyEntry(t, es[0]).value;
      ApplyEntriesFails(t1, es[1..]);
      forall k | 0 <= k < |es[1..]|
        ensures Address(t1.rounds, es[1..][k]) == Address(t.rounds, es[k + 1])
      {
        AddressShape(t.rounds, t1.rounds, es[k + 1]);
      }
      if ApplyEntries(t, es).1.Some? {
        var k :| 0 <= k < |es[1..]| && Address(t1.rounds, es[1..][k]).None?;
        assert Address(t.rounds, es[k + 1]).None?;
      }
    }
  }

  /** Rounds of the same shape credit every entry the same way. */
  lemma EntryCreditShape(a: seq<Round>, b: seq<Round>, e: Entry, id: string)
    requires SameShape(a, b)
    ensures EntryCredit(a, e, id) == EntryCredit(b, e, id)
  {
    AddressShape(a, b, e);
  }

  /** When the loop completes, each player has gained exactly the credits of all entries. */
  lemma {:induction false} ApplyEntriesPoints(t: Tournament, es: seq<Entry>)
    requires ApplyEntries(t, es).1.None?
    ensures forall i :: 0 <= i < |t.players| ==>
      ApplyEntries(t, es).0.players[i].points == t.players[i].points + EntriesCredit(t.rounds, es, t.players[i].id)
    decreases |es|
  {
    if |es| > 0 {
      var t1 := ApplyEntry(t, es[0]).value;
      ApplyEntriesPoints(t1, es[1..]);
      forall i | 0 <= i < |t.players|
        ensures ApplyEntries(t, es).0.players[i].points == t.players[i].points + EntriesCredit(t.rounds, es, t.players[i].id)
      {
        assert t1.players[i].id == t.players[i].id;
        EntriesCreditShape(t.rounds, t1.rounds, es[1..], t.players[i].id);
      }
    }
  }

  lemma {:induction false} EntriesCreditShape(a: seq<Round>, b: seq<Round>, es: seq<Entry>, id: string)
    requires SameShape(a, b)
    ensures EntriesCredit(a, es, id) == EntriesCredit(b, es, id)
    decreases |es|
  {
    if |es| > 0 {
      EntryCreditShape(a, b, es[0], id);
      EntriesCreditShape(a, b, es[1..], id);
    }
  }

  /**
   * The scores a match ends up with: those of the last entry addressing it, or the
   * ones it had (`cur`) when no entry does.
   */
  function LastScores(rs: seq<Round>, es: seq<Entry>, rk: nat, mk: nat, cur: (int, int)): (int, int) {
    if |es| == 0 then cur
    else LastScores(rs, es[1..], rk, mk, if Address(rs, es[0]) == Some((rk, mk)) then (es[0].score1, es[0].score2) else cur)
  }

  /** When the loop completes, every match holds the scores of the last entry addressing it. */
  lemma {:induction false} ApplyEntriesScores(t: Tournament, es: seq<Entry>, rk: nat, mk: nat)
    requires ApplyEntries(t, es).1.None?
    requires rk < |t.rounds| && mk < |t.rounds[rk].matches|
    ensures SameShape(t.rounds, ApplyEntries(t, es).0.rounds)
    ensures var m := ApplyEntries(t, es).0.rounds[rk].matches[mk];
      var old_ := t.rounds[rk].matches[mk];
      (m.score1, m.score2) == LastScores(t.rounds, es, rk, mk, (old_.score1, old_.score2))
    decreases |es|
  {
    ApplyEntriesShape(t, es);
    if |es| > 0 {
      var t1 := ApplyEntry(t, es[0]).value;
      assert SameRoundShape(t.rounds[rk], t1.rounds[rk]);
      ApplyEntriesScores(t1, es[1..], rk, mk);
      LastScoresShape(t.rounds, t1.rounds, es[1..], rk, mk, (t1.rounds[rk].matches[mk].score1, t1.rounds[rk].matches[mk].score2));
    }
  }

  /** With exactly one entry addressing a match, the match ends with that entry's scores. */
  lemma {:induction false} LastScoresOnly(rs: seq<Round>, es: seq<Entry>, rk: nat, mk: nat, cur: (int, int), k: nat)
    requires k < |es| && Address(rs, es[k]) == Some((rk, mk))
    requires forall l :: 0 <= l < |es| && l != k ==> Address(rs, es[l]) != Some((rk, mk))
    ensures LastScores(rs, es, rk, mk, cur) == (es[k].score1, es[k].score2)
    decreases |es|
  {
    if k == 0 {
      LastScoresUnaddressed(rs, es[1..], rk, mk, (es[0].score1, es[0].score2));
    } else {
      assert forall l :: 0 <= l < |es| - 1 ==> es[1..][l] == es[l + 1];
      LastScoresOnly(rs, es[1..], rk, mk, cur, k - 1);
    }
  }

  /** A match no entry addresses keeps its scores. */
  lemma {:induction false} LastScoresUnaddressed(rs: seq<Round>, es: seq<Entry>, rk: nat, mk: nat, cur: (int, int))
    requires forall l :: 0 <= l < |es| ==> Address(rs, es[l]) != Some((rk, mk))
    ensures LastScores(rs, es, rk, mk, cur) == cur
    decreases |es|
  {
    if |es| > 0 {
      assert forall l :: 0 <= l < |es| - 1 ==> es[1..][l] == es[l + 1];
      LastScoresUnaddressed(rs, es[1..], rk, mk, cur);
    }
  }

  lemma {:induction false} LastScoresShape(a: seq<Round>, b: seq<Round>, es: seq<Entry>, rk: nat, mk: nat, cur: (int, int))
    requires SameShape(a, b)
    ensures LastScores(a, es, rk, mk, cur) == LastScores(b, es, rk, mk, cur)
    decreases |es|
  {
    if |es| > 0 {
      AddressShape(a, b, es[0]);
      var next := if Address(a, es[0]) == Some((rk, mk)) then (es[0].score1, es[0].score2) else cur;
      LastScoresShape(a, b, es[1..], rk, mk, next);
    }
  }

  /**
   * The end of `record_results`: round `current_round_index - 1` is closed (Python
   * indexing, so index 0 closes the last round, and no round at all is an IndexError),
   * and the tournament is marked finished once the round budget is reached.
   */
  function CloseCurrent(t: Tournament, now: int): (o: Outcome)
    ensures o.raised.Some? <==> PyIndex(|t.rounds|, t.currentRoundIndex - 1).None?
    ensures o.raised.Some? ==> o == Outcome(t, Some(IndexOutOfRange))
    ensures o.raised.None? ==>
      var k := PyIndex(|t.rounds|, t.currentRoundIndex - 1).value;
      && o.t == t.(rounds := o.t.rounds, status := o.t.status)
      && |o.t.rounds| == |t.rounds|
      && IsClosed(o.t.rounds[k]) && o.t.rounds[k].matches == t.rounds[k].matches
      && (forall i :: 0 <= i < |t.rounds| && i != k ==> o.t.rounds[i] == t.rounds[i])
      && o.t.status == if t.currentRoundIndex >= t.totalRounds then Finished else t.status
  {
    match PyIndex(|t.rounds|, t.currentRoundIndex - 1)
    case None => Outcome(t, Some(IndexOutOfRange))
    case Some(k) =>
      var t2 := t.(rounds := t.rounds[k := Close(t.rounds[k], now)]);
      Outcome(if t2.currentRoundIndex >= t2.totalRounds then t2.(status := Finished) else t2, None)
  }

  /**
   * `record_results`: the entries are applied in order, then the current round is
   * closed. An IndexError, from an entry or from the closing step, leaves whatever
   * was already applied.
   */
  function RecordResults(t: Tournament, es: seq<Entry>, now: int): (o: Outcome)
    ensures o.raised.Some? ==> o.raised.value == IndexOutOfRange
    ensures ApplyEntries(t, es).1.Some? ==> o.t == ApplyEntries(t, es).0
    ensures ApplyEntries(t, es).1.None? ==> o == CloseCurrent(ApplyEntries(t, es).0, now)
  {
    var (t1, err) := ApplyEntries(t, es);
    ApplyEntriesFails(t, es);
    if err.Some? then Outcome(t1, err) else CloseCurrent(t1, now)
  }

  /**
   * After a successful `record_results` the round `current_round_index - 1` is closed,
   * holds the recorded scores, every other round is as the loop left it, and the
   * status is "terminé" exactly when the budget is reached, unchanged otherwise.
   */
  lemma RecordResultsCloses(t: Tournament, es: seq<Entry>, now: int)
    requires RecordResults(t, es, now).raised.None?
    ensures PyIndex(|t.rounds|, t.currentRoundIndex - 1).Some?
    ensures var o := RecordResults(t, es, now);
      var k := PyIndex(|t.rounds|, t.currentRoundIndex - 1).value;
      var loop := ApplyEntries(t, es).0;
      && o.t == t.(rounds := o.t.rounds, players := o.t.players, status := o.t.status)
      && |o.t.rounds| == |t.rounds|
      && IsClosed(o.t.rounds[k]) && o.t.rounds[k].matches == loop.rounds[k].matches
      && (forall i :: 0 <= i < |t.rounds| && i != k ==> o.t.rounds[i] == loop.rounds[i])
      && o.t.players == loop.players
      && o.t.status == if t.currentRoundIndex >= t.totalRounds then Finished else t.status
  {
  }

  /** `record_results` succeeds exactly when every entry addresses a match and a round exists to close. */
  lemma RecordResultsSucceeds(t: Tournament, es: seq<Entry>, now: int)
    ensures RecordResults(t, es, now).raised.None? <==>
      && (forall k :: 0 <= k < |es| ==> Address(t.rounds, es[k]).Some?)
      && PyIndex(|t.rounds|, t.currentRoundIndex - 1).Some?
  {
    ApplyEntriesFails(t, es);
    ApplyEntriesShape(t, es);
  }

  /** On success each player has gained exactly what the entries credit them. */
  lemma RecordResultsPoints(t: Tournament, es: seq<Entry>, now: int)
    requires RecordResults(t, es, now).raised.None?
    ensures var o := RecordResults(t, es, now);
      && SameRoster(o.t.players, t.players)
      && forall i :: 0 <= i < |t.players| ==>
           o.t.players[i].points == t.players[i].points + EntriesCredit(t.rounds, es, t.players[i].id)
  {
    ApplyEntriesShape(t, es);
    ApplyEntriesPoints(t, es);
  }

  /** Recording results keeps the round counter in step with the rounds. */
  lemma RecordKeepsRoundCount(t: Tournament, es: seq<Entry>, now: int)
    requires RoundCountInv(t)
    ensures RoundCountInv(RecordResults(t, es, now).t)
  {
    ApplyEntriesShape(t, es);
  }

  // ---------- points stay the sum of recorded scores ----------

  /** Replacing one match changes a player's sum by the difference of that match's credits. */
  lemma {:induction false} MatchesScoreUpdate(ms: seq<Match>, mk: nat, m: Match, id: string)
    requires mk < |ms|
    ensures MatchesScore(ms[mk := m], id) == MatchesScore(ms, id) - MatchCredit(ms[mk], id) + MatchCredit(m, id)
  {
    var n := |ms| - 1;
    if mk < n {
      assert ms[mk := m][..n] == ms[..n][mk := m];
      MatchesScoreUpdate(ms[..n], mk, m, id);
    } else {
      assert ms[mk := m][..n] == ms[..n];
    }
  }

  /** Replacing one round changes a player's total by the difference of that round's sums. */
  lemma {:induction false} TotalScoreUpdate(rs: seq<Round>, rk: nat, r: Round, id: string)
    requires rk < |rs|
    ensures TotalScore(rs[rk := r], id) == TotalScore(rs, id) - MatchesScore(rs[rk].matches, id) + MatchesScore(r.matches, id)
  {
    var n := |rs| - 1;
    if rk < n {
      assert rs[rk := r][..n] == rs[..n][rk := r];
      TotalScoreUpdate(rs[..n], rk, r, id);
    } else {
      assert rs[rk := r][..n] == rs[..n];
    }
  }

  /** Rounds with the same matches give every player the same total. */
  lemma {:induction false} TotalScoreSameMatches(a: seq<Round>, b: seq<Round>, id: string)
    requires |a| == |b| && forall i :: 0 <= i < |a| ==> a[i].matches == b[i].matches
    ensures TotalScore(a, id) == TotalScore(b, id)
  {
    if |a| > 0 {
      TotalScoreSameMatches(a[..|a| - 1], b[..|b| - 1], id);
    }
  }

  /** Entry `e` addresses a match that has no score yet. */
  predicate TargetUnscored(rs: seq<Round>, e: Entry) {
    Address(rs, e).Some? &&
    var (rk, mk) := Address(rs, e).value;
    rs[rk].matches[mk].score1 == 0 && rs[rk].matches[mk].score2 == 0
  }

  /** Every entry addresses its own match, and none of those matches has a score yet. */
  predicate FreshTargets(rs: seq<Round>, es: seq<Entry>) {
    && (forall k :: 0 <= k < |es| ==> TargetUnscored(rs, es[k]))
    && (forall k, l :: 0 <= k < l < |es| ==> Address(rs, es[k]) != Address(rs, es[l]))
  }

  /** Scoring a match that had no score keeps every player's points equal to their recorded total. */
  lemma ApplyEntryKeepsPoints(t: Tournament, e: Entry)
    requires PointsConsistent(t) && TargetUnscored(t.rounds, e)
    ensures PointsConsistent(ApplyEntry(t, e).value)
  {
    var (rk, mk) := Address(t.rounds, e).value;
    var m := t.rounds[rk].matches[mk];
    var m2 := m.(score1 := e.score1, score2 := e.score2);
    var t1 := ApplyEntry(t, e).value;
    var r2 := t.rounds[rk].(matches := t.rounds[rk].matches[mk := m2]);
    assert t1.rounds == t.rounds[rk := r2];
    forall i | 0 <= i < |t1.players|
      ensures t1.players[i].points == TotalScore(t1.rounds, t1.players[i].id)
    {
      var id := t.players[i].id;
      MatchesScoreUpdate(t.rounds[rk].matches, mk, m2, id);
      TotalScoreUpdate(t.rounds, rk, r2, id);
    }
  }

  /** After the first entry is applied, the remaining entries still have fresh targets. */
  lemma FreshTargetsTail(t: Tournament, es: seq<Entry>)
    requires |es| > 0 && FreshTargets(t.rounds, es)
    ensures ApplyEntry(t, es[0]).Ok?
    ensures FreshTargets(ApplyEntry(t, es[0]).value.rounds, es[1..])
  {
    assert TargetUnscored(t.rounds, es[0]);
    var t1 := ApplyEntry(t, es[0]).value;
    var (rk, mk) := Address(t.rounds, es[0]).value;
    assert t1.rounds == SetScores(t.rounds, rk, mk, es[0].score1, es[0].score2);
    forall k | 0 <= k < |es[1..]|
      ensures Address(t1.rounds, es[1..][k]) == Address(t.rounds, es[k + 1])
    {
      AddressShape(t.rounds, t1.rounds, es[k + 1]);
    }
    forall k | 0 <= k < |es[1..]|
      ensures TargetUnscored(t1.rounds, es[1..][k])
    {
      assert TargetUnscored(t.rounds, es[k + 1]);
      assert Address(t.rounds, es[0]) != Address(t.rounds, es[k + 1]);
    }
    forall k, l | 0 <= k < l < |es[1..]|
      ensures Address(t1.rounds, es[1..][k]) != Address(t1.rounds, es[1..][l])
    {
      assert Address(t.rounds, es[k + 1]) != Address(t.rounds, es[l + 1]);
    }
  }

  /** Applying entries with fresh targets keeps every player's points equal to their recorded total. */
  lemma {:induction false} ApplyEntriesKeepsPoints(t: Tournament, es: seq<Entry>)
    requires PointsConsistent(t) && FreshTargets(t.rounds, es)
    ensures ApplyEntries(t, es).1.None?
    ensures PointsConsistent(ApplyEntries(t, es).0)
    decreases |es|
  {
    if |es| > 0 {
      FreshTargetsTail(t, es);
      ApplyEntryKeepsPoints(t, es[0]);
      ApplyEntriesKeepsPoints(ApplyEntry(t, es[0]).value, es[1..]);
    }
  }

  /**
   * Recording one result per unscored match keeps points equal to the sum of the
   * recorded scores; closing the round does not touch any score.
   */
  lemma RecordKeepsPoints(t: Tournament, es: seq<Entry>, now: int)
    requires PointsConsistent(t) && FreshTargets(t.rounds, es)
    ensures PointsConsistent(RecordResults(t, es, now).t)
  {
    ApplyEntriesKeepsPoints(t, es);
    var t1 := ApplyEntries(t, es).0;
    var o := CloseCurrent(t1, now);
    if o.raised.None? {
      forall i | 0 <= i < |o.t.players|
        ensures o.t.players[i].points == TotalScore(o.t.rounds, o.t.players[i].id)
      {
        TotalScoreSameMatches(o.t.rounds, t1.rounds, o.t.players[i].id);
      }
    }
  }
}
