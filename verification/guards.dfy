/**
 * The status guards of the tournament controllers: when a tournament may start,
 * when a next round may start, when scores may be entered, and the result entries
 * the score prompts build. The same checks appear in controllers/tournament_rounds.py,
 * controllers/tournament_start.py, controllers/tournament_next_round.py,
 * controllers/tournament_scores.py and controllers/tournament_controller.py; each is
 * written once here.
 */
module Guards {
  import opened Wrappers
  import opened Matches
  import opened Domain
  import opened Ordering
  import opened Lifecycle
  import Text

  // ---------- starting a tournament ----------

  /** Why a start is refused, one reason per check, in the order the checks run. */
  datatype StartRefusal = NoPlayers | UnevenRoster | AlreadyFinished | AlreadyRunning

  /** `_can_start_tournament`: the first check that fails, or `None` when the start may go ahead. */
  function StartRefused(t: Tournament): (r: Option<StartRefusal>)
    ensures r.None? <==> |t.players| >= 2 && |t.players| % 2 == 0 && t.status != Finished && t.status != InProgress
    ensures r == Some(NoPlayers) <==> |t.players| == 0
    ensures r == Some(UnevenRoster) <==> |t.players| > 0 && |t.players| % 2 != 0
    ensures r == Some(AlreadyFinished) ==> |t.players| >= 2 && t.status == Finished
    ensures r == Some(AlreadyRunning) ==> |t.players| >= 2 && t.status == InProgress
  {
    if |t.players| == 0 then Some(NoPlayers)
    else if |t.players| < 2 || |t.players| % 2 != 0 then Some(UnevenRoster)
    else if t.status == Finished then Some(AlreadyFinished)
    else if t.status == InProgress then Some(AlreadyRunning)
    else None
  }

  /** Of the three statuses a tournament moves through, only "non démarré" can pass the start checks. */
  lemma OnlyNotStartedStarts(t: Tournament)
    requires t.status in {NotStarted, InProgress, Finished}
    requires StartRefused(t).None?
    ensures t.status == NotStarted
  {
  }

  /** The tournaments offered for starting: those not started yet, in list order. */
  function NotStartedOnly(ts: seq<Tournament>): (r: seq<Tournament>)
    ensures forall i :: 0 <= i < |r| ==> r[i].status == NotStarted && r[i] in ts
    ensures forall i :: 0 <= i < |ts| && ts[i].status == NotStarted ==> ts[i] in r
    ensures |r| <= |ts|
  {
    if |ts| == 0 then []
    else (if ts[0].status == NotStarted then [ts[0]] else []) + NotStartedOnly(ts[1..])
  }

  /**
   * `_launch_tournament`: the status is set to "en cours" first, then the first round
   * is started. `order` is the outcome of the ordering pass.
   */
  function Launch(t: Tournament, order: seq<Player>, now: int): (o: Outcome)
    requires ShuffleOutcome(t.players, t.currentRoundIndex == 0, order)
    ensures o.t.status == InProgress
    ensures o.raised.Some? ==> o.t == t.(status := InProgress)
  {
    StartNextRound(t.(status := InProgress), order, now)
  }

  /**
   * Starting a tournament: refused with nothing changed when a check fails, launched
   * otherwise.
   */
  function StartTournament(t: Tournament, order: seq<Player>, now: int): (o: Outcome)
    requires ShuffleOutcome(t.players, t.currentRoundIndex == 0, order)
    ensures StartRefused(t).Some? ==> o == Outcome(t, None)
    ensures StartRefused(t).None? ==> o == Launch(t, order, now)
  {
    if StartRefused(t).Some? then Outcome(t, None) else Launch(t, order, now)
  }

  /**
   * A start that passes the checks on a tournament with rounds left opens exactly one
   * round, leaves the tournament "en cours", keeps the round counter in step with the
   * rounds and every player's points equal to their recorded total.
   */
  lemma StartOpensOneRound(t: Tournament, order: seq<Player>, now: int)
    requires ShuffleOutcome(t.players, t.currentRoundIndex == 0, order)
    requires StartRefused(t).None? && t.currentRoundIndex < t.totalRounds
    requires RoundCountInv(t) && PointsConsistent(t)
    ensures var o := StartTournament(t, order, now);
      && o.raised.None?
      && o.t.status == InProgress
      && |o.t.rounds| == |t.rounds| + 1 && o.t.rounds[..|t.rounds|] == t.rounds
      && !IsClosed(o.t.rounds[|t.rounds|])
      && o.t.currentRoundIndex == t.currentRoundIndex + 1
      && RoundCountInv(o.t) && PointsConsistent(o.t)
  {
    var t1 := t.(status := InProgress);
    StartKeepsRoundCount(t1, order, now);
    StartKeepsPoints(t1, order, now);
  }

  /**
   * Launching a tournament whose round budget is already spent raises, but only after
   * the status was set: it is left "en cours" without a round being added.
   */
  lemma LaunchWithoutRoundsLeft(t: Tournament, order: seq<Player>, now: int)
    requires ShuffleOutcome(t.players, t.currentRoundIndex == 0, order)
    requires StartRefused(t).None? && t.currentRoundIndex >= t.totalRounds
    ensures StartTournament(t, order, now) == Outcome(t.(status := InProgress), Some(RoundsExhausted))
    ensures t.status != InProgress
  {
  }

  // ---------- starting the next round ----------

  /** Why a next round is refused, in the order the checks run. */
  datatype NextRefusal = TournamentOver | RoundStillOpen | NoRoundsLeft

  /** The guard chain in front of `start_next_round`. */
  function NextRefused(t: Tournament): (r: Option<NextRefusal>)
    ensures t.status == Finished ==> r == Some(TournamentOver)
    ensures r == Some(RoundStillOpen) <==>
              t.status != Finished && |t.rounds| > 0 && !IsClosed(t.rounds[|t.rounds| - 1])
    ensures r.None? <==>
              && t.status != Finished
              && (|t.rounds| == 0 || IsClosed(t.rounds[|t.rounds| - 1]))
              && t.currentRoundIndex < t.totalRounds
  {
    if t.status == Finished then Some(TournamentOver)
    else if |t.rounds| > 0 && !IsClosed(t.rounds[|t.rounds| - 1]) then Some(RoundStillOpen)
    else if t.currentRoundIndex >= t.totalRounds then Some(NoRoundsLeft)
    else None
  }

  /** Starting the next round from the controllers: refused with nothing changed, or performed once. */
  function StartNext(t: Tournament, order: seq<Player>, now: int): (o: Outcome)
    requires ShuffleOutcome(t.players, t.currentRoundIndex == 0, order)
    ensures NextRefused(t).Some? ==> o == Outcome(t, None)
    ensures NextRefused(t).None? ==> o == StartNextRound(t, order, now)
  {
    if NextRefused(t).Some? then Outcome(t, None) else StartNextRound(t, order, now)
  }

  /**
   * A next round that passes the guards on an even roster is exactly one more round,
   * open, with the counter advanced by one and still in step with the rounds.
   */
  lemma StartNextOneRound(t: Tournament, order: seq<Player>, now: int)
    requires ShuffleOutcome(t.players, t.currentRoundIndex == 0, order)
    requires NextRefused(t).None? && |t.players| % 2 == 0 && RoundCountInv(t)
    ensures var o := StartNext(t, order, now);
      && o.raised.None? && o.t.status == InProgress
      && |o.t.rounds| == |t.rounds| + 1 && o.t.rounds[..|t.rounds|] == t.rounds
      && !IsClosed(o.t.rounds[|t.rounds|])
      && o.t.currentRoundIndex == t.currentRoundIndex + 1 && RoundCountInv(o.t)
  {
    StartKeepsRoundCount(t, order, now);
  }

  /**
   * While the round counter is in step with the rounds, these guards let a tournament
   * through exactly when it is not finished and the round controller's own guards
   * (rounds left, last round closed) let it through.
   */
  lemma NextGuardsAgree(t: Tournament)
    requires RoundCountInv(t)
    ensures NextRefused(t).None? <==>
      && t.status != Finished
      && |t.rounds| < t.totalRounds
      && (|t.rounds| == 0 || IsClosed(t.rounds[|t.rounds| - 1]))
  {
  }

  // ---------- entering scores ----------

  /** `_can_enter_scores`: neither before the start nor after the end. */
  predicate CanEnterScores(status: string) {
    status != NotStarted && status != Finished
  }

  /** Of the three statuses, scores can be entered only while the tournament is in progress. */
  lemma ScoresOnlyInProgress(status: string)
    requires status in {NotStarted, InProgress, Finished}
    ensures CanEnterScores(status) <==> status == InProgress
  {
  }

  /** The entry for match `idx` of round number `num`: `(num - 1, idx, a, b)` with a valid result. */
  predicate EntryFor(e: Entry, num: int, idx: int) {
    e.roundIndex == num - 1 && e.matchIndex == idx && IsResult(e.score1, e.score2)
  }

  /** A score answer after `strip()` and removing every space, as half-points. */
  function ParseScore(line: string): (r: Option<ResultPair>)
    ensures r.Some? <==> Text.RemoveSpaces(Text.Strip(line)) in {"1-0", "0-1", "0.5-0.5"}
    ensures r == Some((Win, Loss)) <==> Text.RemoveSpaces(Text.Strip(line)) == "1-0"
    ensures r == Some((Loss, Win)) <==> Text.RemoveSpaces(Text.Strip(line)) == "0-1"
    ensures r == Some((Draw, Draw)) <==> Text.RemoveSpaces(Text.Strip(line)) == "0.5-0.5"
  {
    var s := Text.RemoveSpaces(Text.Strip(line));
    if s == "1-0" then Some((Win, Loss))
    else if s == "0-1" then Some((Loss, Win))
    else if s == "0.5-0.5" then Some((Draw, Draw))
    else None
  }

  /** Each input line read as a score answer; `None` for a line that is asked again. */
  function Answers(lines: seq<string>): (r: seq<Option<ResultPair>>)
    ensures |r| == |lines|
    ensures forall j :: 0 <= j < |lines| ==> r[j] == ParseScore(lines[j])
  {
    seq(|lines|, j requires 0 <= j < |lines| => ParseScore(lines[j]))
  }

  /** Spaces inside an answer do not matter: "1 - 0" is read as "1-0". */
  lemma SpacedAnswerAccepted()
    ensures ParseScore("1 - 0") == Some((Win, Loss))
  {
    assert Text.Strip("1 - 0") == "1 - 0" by {
      assert Text.LeadLen("1 - 0", Text.IsSpace) == 0;
      assert Text.TrailLen("1 - 0", Text.IsSpace) == 0;
    }
    assert Text.RemoveSpaces("1 - 0") == "1-0";
  }

  /**
   * `_collect_scores` from the match at position `i` on: for each match the prompt is
   * repeated until a valid answer, and the entry `(num - 1, i, a, b)` is built. Running
   * out of input is an EOFError, and the entries built so far are lost with it.
   */
  function CollectScores(ms: seq<Match>, num: int, i: nat, answers: seq<Option<ResultPair>>): (r: Result<seq<Entry>, Error>)
    requires i <= |ms|
    ensures r.Err? ==> r.error == EndOfInput
    ensures r.Ok? ==> |r.value| == |ms| - i
    ensures r.Ok? ==> forall k :: 0 <= k < |r.value| ==> EntryFor(r.value[k], num, i + k)
    ensures r.Err? <==> |GivenInOrder(answers)| < |ms| - i
    ensures r.Ok? ==> forall k :: 0 <= k < |r.value| ==>
      (r.value[k].score1, r.value[k].score2) == GivenInOrder(answers)[k]
    decreases |ms| - i
  {
    if i == |ms| then Ok([])
    else
      match Text.FirstWhere(answers, Given)
      case None => GivenNone(answers); Err(EndOfInput)
      case Some(k) =>
        GivenFirst(answers, k);
        var sc := answers[k].value;
        match CollectScores(ms, num, i + 1, answers[k + 1..])
        case Err(e) => Err(e)
        case Ok(rest) =>
          var out := [Entry(num - 1, i, sc.0, sc.1)] + rest;
          CollectStep(num, i, sc, rest, GivenInOrder(answers[k + 1..]), out);
          Ok(out)
  }

  /** One step of `CollectScores`: the entry for match `i` goes in front of the rest. */
  lemma CollectStep(num: int, i: nat, sc: ResultPair, rest: seq<Entry>, given: seq<ResultPair>, out: seq<Entry>)
    requires out == [Entry(num - 1, i, sc.0, sc.1)] + rest
    requires forall k :: 0 <= k < |rest| ==> EntryFor(rest[k], num, i + 1 + k)
    requires |rest| <= |given|
    requires forall k :: 0 <= k < |rest| ==> (rest[k].score1, rest[k].score2) == given[k]
    ensures forall k :: 0 <= k < |out| ==> EntryFor(out[k], num, i + k)
    ensures forall k :: 0 <= k < |out| ==> (out[k].score1, out[k].score2) == ([sc] + given)[k]
  {
    assert forall j :: 1 <= j < |out| ==> out[j] == rest[j - 1];
  }

  /**
   * The score-entry flow: refused before the start and after the end; the last round
   * is read with `rounds[-1]` (an IndexError when there is none); a closed last round
   * is only summarised; otherwise one answer per match is collected and passed to
   * `record_results`.
   */
  function EnterScores(t: Tournament, lines: seq<string>, now: int): (o: Outcome)
    ensures !CanEnterScores(t.status) ==> o == Outcome(t, None)
    ensures CanEnterScores(t.status) && |t.rounds| == 0 ==> o == Outcome(t, Some(IndexOutOfRange))
    ensures |t.rounds| > 0 && IsClosed(t.rounds[|t.rounds| - 1]) ==> o == Outcome(t, None)
    ensures o.raised == Some(EndOfInput) ==> o.t == t
  {
    if !CanEnterScores(t.status) then Outcome(t, None)
    else if |t.rounds| == 0 then Outcome(t, Some(IndexOutOfRange))
    else
      var rnd := t.rounds[|t.rounds| - 1];
      if IsClosed(rnd) then Outcome(t, None)
      else
        match CollectScores(rnd.matches, t.currentRoundIndex, 0, Answers(lines))
        case Err(e) => Outcome(t, Some(e))
        case Ok(es) =>
          var o := RecordResults(t, es, now);
          assert o.raised != Some(EndOfInput);
          o
  }

  /** The entries collected for the last round address its matches one by one, none of them scored yet. */
  lemma CollectedTargetsFresh(t: Tournament, es: seq<Entry>, answers: seq<Option<ResultPair>>)
    requires RoundCountInv(t) && |t.rounds| > 0
    requires Unscored(t.rounds[|t.rounds| - 1].matches)
    requires CollectScores(t.rounds[|t.rounds| - 1].matches, t.currentRoundIndex, 0, answers) == Ok(es)
    ensures FreshTargets(t.rounds, es)
    ensures forall k :: 0 <= k < |es| ==> Address(t.rounds, es[k]) == Some((|t.rounds| - 1, k))
  {
    var n := |t.rounds| - 1;
    forall k | 0 <= k < |es|
      ensures Address(t.rounds, es[k]) == Some((n, k))
      ensures TargetUnscored(t.rounds, es[k])
    {
      assert EntryFor(es[k], t.currentRoundIndex, k);
      EntryAddress(t.rounds, es[k], k);
    }
  }

  /** An entry for the last round's match `k` addresses exactly that match. */
  lemma EntryAddress(rs: seq<Round>, e: Entry, k: nat)
    requires |rs| > 0 && e.roundIndex == |rs| - 1
    requires e.matchIndex == k < |rs[|rs| - 1].matches|
    ensures Address(rs, e) == Some((|rs| - 1, k))
  {
    assert PyIndex(|rs|, e.roundIndex) == Some(|rs| - 1);
  }

  /**
   * Entering every answer for an open, unscored last round closes that round and keeps
   * each player's points equal to their recorded total (so each grows by exactly the
   * entered results) and the round counter in step; the tournament is finished exactly
   * when its budget is reached.
   */
  lemma EnterScoresRecords(t: Tournament, lines: seq<string>, now: int)
    requires RoundCountInv(t) && PointsConsistent(t) && CanEnterScores(t.status)
    requires |t.rounds| > 0 && !IsClosed(t.rounds[|t.rounds| - 1])
    requires Unscored(t.rounds[|t.rounds| - 1].matches)
    requires CollectScores(t.rounds[|t.rounds| - 1].matches, t.currentRoundIndex, 0, Answers(lines)).Ok?
    ensures var o := EnterScores(t, lines, now);
      && o.raised.None?
      && IsClosed(o.t.rounds[|t.rounds| - 1])
      && PointsConsistent(o.t) && RoundCountInv(o.t)
      && (o.t.status == Finished <==> t.currentRoundIndex >= t.totalRounds || t.status == Finished)
    ensures var o := EnterScores(t, lines, now);
      var given := GivenInOrder(Answers(lines));
      && |o.t.rounds| == |t.rounds|
      && |o.t.rounds[|t.rounds| - 1].matches| == |t.rounds[|t.rounds| - 1].matches| <= |given|
      && forall k :: 0 <= k < |t.rounds[|t.rounds| - 1].matches| ==>
           (o.t.rounds[|t.rounds| - 1].matches[k].score1, o.t.rounds[|t.rounds| - 1].matches[k].score2) == given[k]
  {
    var es := CollectScores(t.rounds[|t.rounds| - 1].matches, t.currentRoundIndex, 0, Answers(lines)).value;
    CollectedTargetsFresh(t, es, Answers(lines));
    RecordedAsTyped(t, es, now);
    RecordKeepsPoints(t, es, now);
    RecordKeepsRoundCount(t, es, now);
    ApplyEntriesKeepsPoints(t, es);
    RecordResultsSucceeds(t, es, now);
    RecordResultsCloses(t, es, now);
  }

  /** Entries that address the last round's matches one by one leave each match with its entry's scores. */
  lemma RecordedAsTyped(t: Tournament, es: seq<Entry>, now: int)
    requires RoundCountInv(t) && |t.rounds| > 0
    requires |es| == |t.rounds[|t.rounds| - 1].matches|
    requires forall k :: 0 <= k < |es| ==> Address(t.rounds, es[k]) == Some((|t.rounds| - 1, k))
    ensures var o := RecordResults(t, es, now);
      && |o.t.rounds| == |t.rounds|
      && |o.t.rounds[|t.rounds| - 1].matches| == |es|
      && forall k :: 0 <= k < |es| ==>
           (o.t.rounds[|t.rounds| - 1].matches[k].score1, o.t.rounds[|t.rounds| - 1].matches[k].score2) == (es[k].score1, es[k].score2)
  {
    var n := |t.rounds| - 1;
    RecordResultsSucceeds(t, es, now);
    RecordResultsCloses(t, es, now);
    assert PyIndex(|t.rounds|, t.currentRoundIndex - 1) == Some(n);
    ApplyEntriesShape(t, es);
    forall k | 0 <= k < |es|
      ensures var o := RecordResults(t, es, now);
        (o.t.rounds[n].matches[k].score1, o.t.rounds[n].matches[k].score2) == (es[k].score1, es[k].score2)
    {
      var m := t.rounds[n].matches[k];
      ApplyEntriesScores(t, es, n, k);
      LastScoresOnly(t.rounds, es, n, k, (m.score1, m.score2), k);
    }
  }
}
