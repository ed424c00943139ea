/**
 * controllers/round_controller.py: entering the results of the current round from
 * console lines, a deterministic next-round pairer that avoids every pairing found
 * in the earlier rounds, and the standings order.
 */
module RoundControl {
  import opened Wrappers
  import opened Matches
  import opened Domain
  import Text
  import Sorting
  import Pairing
  import Lifecycle

  // ---------- standings order ----------

  /** The sort key `(-score, last_name, first_name)`: `a` may come before `b`. */
  predicate StandingLe(a: Player, b: Player) {
    a.points > b.points ||
    (a.points == b.points &&
      (Text.StrLt(a.lastName, b.lastName) ||
       (a.lastName == b.lastName && Text.StrLe(a.firstName, b.firstName))))
  }

  lemma StandingLeTotalPreorder()
    ensures Sorting.TotalPreorder(StandingLe)
  {
    forall a: Player, b: Player
      ensures StandingLe(a, b) || StandingLe(b, a)
    {
      Text.StrLeTotal(a.lastName, b.lastName);
      Text.StrLeTotal(a.firstName, b.firstName);
      if Text.StrLe(a.lastName, b.lastName) && Text.StrLe(b.lastName, a.lastName) {
        Text.StrLeAntisym(a.lastName, b.lastName);
      }
    }
    forall a: Player, b: Player, c: Player | StandingLe(a, b) && StandingLe(b, c)
      ensures StandingLe(a, c)
    {
      StandingLeTrans(a, b, c);
    }
  }

  lemma StandingLeTrans(a: Player, b: Player, c: Player)
    requires StandingLe(a, b) && StandingLe(b, c)
    ensures StandingLe(a, c)
  {
    if a.points == b.points == c.points {
      Text.StrLeTotal(a.lastName, b.lastName);
      Text.StrLeTotal(b.lastName, c.lastName);
      Text.StrLeTrans(a.lastName, b.lastName, c.lastName);
      if Text.StrLe(c.lastName, a.lastName) {
        Text.StrLeAntisym(a.lastName, c.lastName);
        Text.StrLeAntisym(a.lastName, b.lastName);
        Text.StrLeRefl(a.lastName);
        Text.StrLeTrans(a.firstName, b.firstName, c.firstName);
      }
    }
  }

  /** `sorted(players, key=lambda p: (-p.score, p.last_name, p.first_name))` */
  function Standings(ps: seq<Player>): (r: seq<Player>)
    ensures |r| == |ps| && multiset(r) == multiset(ps)
  {
    Sorting.SortBy(ps, StandingLe)
  }

  /**
   * The standings list higher scores first; equal scores by last name, then, for
   * equal last names, by first name.
   */
  lemma StandingsOrdered(ps: seq<Player>, i: nat, j: nat)
    requires i < j < |ps|
    ensures var r := Standings(ps);
      && r[i].points >= r[j].points
      && (r[i].points == r[j].points ==> Text.StrLe(r[i].lastName, r[j].lastName))
      && (r[i].points == r[j].points && r[i].lastName == r[j].lastName ==> Text.StrLe(r[i].firstName, r[j].firstName))
  {
    StandingLeTotalPreorder();
    Sorting.SortBySorted(ps, StandingLe);
    var r := Standings(ps);
    assert StandingLe(r[i], r[j]);
    Text.StrLeTotal(r[i].lastName, r[j].lastName);
  }

  // ---------- entering results ----------

  /** The accepted answers for one match, after `strip()`, as half-point scores. */
  function ParseResult(line: string): (r: Option<ResultPair>)
    ensures r.Some? <==> Text.Strip(line) in {"1-0", "0-1", "0.5-0.5", "½-½"}
  {
    var s := Text.Strip(line);
    if s == "1-0" then Some((Win, Loss))
    else if s == "0-1" then Some((Loss, Win))
    else if s == "0.5-0.5" || s == "½-½" then Some((Draw, Draw))
    else None
  }

  /**
   * "1-0" is a win for the first player, "0-1" a win for the second, "0.5-0.5" and
   * "½-½" a draw; everything else is asked again.
   */
  lemma ParseResultAccepts(line: string)
    ensures ParseResult(line) == Some((Win, Loss)) <==> Text.Strip(line) == "1-0"
    ensures ParseResult(line) == Some((Loss, Win)) <==> Text.Strip(line) == "0-1"
    ensures ParseResult(line) == Some((Draw, Draw)) <==> Text.Strip(line) in {"0.5-0.5", "½-½"}
  {
  }

  /** Each input line read as a result; `None` for a line that is asked again. */
  function Results(lines: seq<string>): (r: seq<Option<ResultPair>>)
    ensures |r| == |lines|
    ensures forall j :: 0 <= j < |lines| ==> r[j] == ParseResult(lines[j])
  {
    seq(|lines|, j requires 0 <= j < |lines| => ParseResult(lines[j]))
  }

  /**
   * Scores the matches in order, each from the answers left by the previous one; the
   * scores are stored as they are read, so EOFError leaves the earlier ones set.
   */
  function ScoreMatches(ms: seq<Match>, answers: seq<Option<ResultPair>>): (r: (seq<Match>, Option<Error>))
    ensures |r.0| == |ms|
    ensures forall j :: 0 <= j < |ms| ==> r.0[j].id1 == ms[j].id1 && r.0[j].id2 == ms[j].id2
    ensures r.1.Some? ==> r.1.value == EndOfInput
    ensures r.1.None? <==> |GivenInOrder(answers)| >= |ms|
    ensures forall j :: 0 <= j < |ms| && j < |GivenInOrder(answers)| ==>
      (r.0[j].score1, r.0[j].score2) == GivenInOrder(answers)[j]
    ensures forall j :: |GivenInOrder(answers)| <= j < |ms| ==> r.0[j] == ms[j]
    decreases |ms|
  {
    if |ms| == 0 then ([], None)
    else
      match Text.FirstWhere(answers, Given)
      case None => GivenNone(answers); (ms, Some(EndOfInput))
      case Some(k) =>
        GivenFirst(answers, k);
        var sc := answers[k].value;
        var rest := ScoreMatches(ms[1..], answers[k + 1..]);
        var out := [ms[0].(score1 := sc.0, score2 := sc.1)] + rest.0;
        ScoreStep(ms, sc, rest.0, GivenInOrder(answers[k + 1..]), out);
        (out, rest.1)
  }

  /** One step of `ScoreMatches`: scoring the first match with `sc` extends what the rest scored. */
  lemma ScoreStep(ms: seq<Match>, sc: ResultPair, rest: seq<Match>, given: seq<ResultPair>, out: seq<Match>)
    requires |ms| > 0 && |rest| == |ms| - 1
    requires out == [ms[0].(score1 := sc.0, score2 := sc.1)] + rest
    requires forall j :: 0 <= j < |rest| ==> rest[j].id1 == ms[1..][j].id1 && rest[j].id2 == ms[1..][j].id2
    requires forall j :: 0 <= j < |rest| && j < |given| ==> (rest[j].score1, rest[j].score2) == given[j]
    requires forall j :: |given| <= j < |rest| ==> rest[j] == ms[1..][j]
    ensures forall j :: 0 <= j < |ms| ==> out[j].id1 == ms[j].id1 && out[j].id2 == ms[j].id2
    ensures forall j :: 0 <= j < |ms| && j < |[sc] + given| ==> (out[j].score1, out[j].score2) == ([sc] + given)[j]
    ensures forall j :: |[sc] + given| <= j < |ms| ==> out[j] == ms[j]
  {
    assert forall j :: 1 <= j < |ms| ==> out[j] == rest[j - 1] && ms[j] == ms[1..][j - 1];
  }

  /** Every match that `ScoreMatches` completes holds one of the three accepted results. */
  lemma {:induction false} ScoredResultsAccepted(ms: seq<Match>, answers: seq<Option<ResultPair>>)
    requires ScoreMatches(ms, answers).1.None?
    ensures forall j :: 0 <= j < |ms| ==> IsResult(ScoreMatches(ms, answers).0[j].score1, ScoreMatches(ms, answers).0[j].score2)
    decreases |ms|
  {
    if |ms| > 0 {
      var n := Text.FirstWhere(answers, Given).value + 1;
      ScoredResultsAccepted(ms[1..], answers[n..]);
      var out := ScoreMatches(ms, answers).0;
      forall j | 0 <= j < |ms|
        ensures IsResult(out[j].score1, out[j].score2)
      {
        if j > 0 {
          assert out[j] == ScoreMatches(ms[1..], answers[n..]).0[j - 1];
        }
      }
    }
  }

  /** The first roster position holding `id`: what `next(p for p in t.players if ...)` finds. */
  function FirstWithId(ps: seq<Player>, id: string): (k: Option<nat>)
    ensures k.Some? ==> k.value < |ps| && ps[k.value].id == id && forall j :: 0 <= j < k.value ==> ps[j].id != id
    ensures k.None? <==> forall j :: 0 <= j < |ps| ==> ps[j].id != id
  {
    if |ps| == 0 then None
    else if ps[0].id == id then Some(0)
    else match FirstWithId(ps[1..], id)
      case None => None
      case Some(k) => Some(k + 1)
  }

  /**
   * `p1.score += s1; p2.score += s2` where `p1`, `p2` are the objects at `a`, `b`. The
   * roster `ps` as it stood before crediting began stands for object identity: an entry
   * shows a credit when it is equal there to the entry credited. `cur` is the roster so far.
   */
  function CreditShared(ps: seq<Player>, cur: seq<Player>, a: nat, s1: int, b: nat, s2: int): (r: seq<Player>)
    requires |cur| == |ps| && a < |ps| && b < |ps|
    ensures SameRoster(r, cur)
    ensures forall i :: 0 <= i < |ps| ==>
      r[i] == cur[i].(points := cur[i].points + (if ps[i] == ps[a] then s1 else 0) + (if ps[i] == ps[b] then s2 else 0))
  {
    seq(|cur|, i requires 0 <= i < |cur| =>
      cur[i].(points := cur[i].points + (if ps[i] == ps[a] then s1 else 0) + (if ps[i] == ps[b] then s2 else 0)))
  }

  /**
   * Credits one match: each of its players is looked up as the first entry of `cur` with
   * their id, and both are found before either is credited.
   */
  function CreditFirst(ps: seq<Player>, cur: seq<Player>, m: Match): (r: Result<seq<Player>, Error>)
    requires |cur| == |ps|
    ensures r.Err? <==> FirstWithId(cur, m.id1).None? || FirstWithId(cur, m.id2).None?
    ensures r.Err? ==> r.error == NotFound
    ensures r.Ok? ==> SameRoster(r.value, cur)
    ensures r.Ok? ==> forall i :: 0 <= i < |ps| ==>
      r.value[i].points == cur[i].points
        + (if ps[i] == ps[FirstWithId(cur, m.id1).value] then m.score1 else 0)
        + (if ps[i] == ps[FirstWithId(cur, m.id2).value] then m.score2 else 0)
  {
    match (FirstWithId(cur, m.id1), FirstWithId(cur, m.id2))
    case (Some(a), Some(b)) => Ok(CreditShared(ps, cur, a, m.score1, b, m.score2))
    case _ => Err(NotFound)
  }

  /** The entry at `i` is the object the lookup of its id lands on. */
  predicate FoundByLookup(ps: seq<Player>, i: nat)
    requires i < |ps|
  {
    FirstWithId(ps, ps[i].id).Some? && ps[i] == ps[FirstWithId(ps, ps[i].id).value]
  }

  /**
   * What the matches credit to the entry at `i`: its id's scores when it is the object the
   * lookup lands on, else nothing.
   */
  function FirstCredit(ps: seq<Player>, ms: seq<Match>, i: nat): int
    requires i < |ps|
  {
    if FoundByLookup(ps, i) then MatchesScore(ms, ps[i].id) else 0
  }

  /** The crediting loop; StopIteration leaves the earlier matches credited. */
  function CreditAllFirst(ps: seq<Player>, ms: seq<Match>): (r: (seq<Player>, Option<Error>))
    ensures |r.0| == |ps|
    ensures r.1.Some? ==> r.1.value == NotFound
  {
    if |ms| == 0 then (ps, None)
    else
      var (ps1, err) := CreditAllFirst(ps, ms[..|ms| - 1]);
      if err.Some? then (ps1, err)
      else match CreditFirst(ps, ps1, ms[|ms| - 1])
        case Err(e) => (ps1, Some(e))
        case Ok(ps2) => (ps2, None)
  }

  /** Rosters with the same players find the same first entries. */
  lemma FirstWithIdSameRoster(a: seq<Player>, b: seq<Player>, id: string)
    requires SameRoster(a, b)
    ensures FirstWithId(a, id) == FirstWithId(b, id)
  {
    var fa := FirstWithId(a, id);
    var fb := FirstWithId(b, id);
    assert forall j :: 0 <= j < |a| ==> a[j].id == b[j].id by {
      forall j | 0 <= j < |a|
        ensures a[j].id == b[j].id
      {
        assert a[j].(points := 0) == b[j].(points := 0);
      }
    }
  }

  /** An entry is equal to the first entry with `id` exactly when it is found by the lookup of `id`. */
  lemma AliasOfFirst(ps: seq<Player>, id: string, a: nat, i: nat)
    requires FirstWithId(ps, id) == Some(a) && i < |ps|
    ensures ps[i] == ps[a] <==> ps[i].id == id && FoundByLookup(ps, i)
  {
  }

  /** One more credited match adds its credit to every entry found by the lookup of one of its players. */
  lemma CreditFirstStep(ps: seq<Player>, ps1: seq<Player>, ms: seq<Match>, i: nat)
    requires |ms| > 0 && i < |ps| && SameRoster(ps1, ps)
    requires ps1[i].points == ps[i].points + FirstCredit(ps, ms[..|ms| - 1], i)
    requires CreditFirst(ps, ps1, ms[|ms| - 1]).Ok?
    ensures CreditFirst(ps, ps1, ms[|ms| - 1]).value[i].points == ps[i].points + FirstCredit(ps, ms, i)
  {
    var m := ms[|ms| - 1];
    FirstWithIdSameRoster(ps1, ps, m.id1);
    FirstWithIdSameRoster(ps1, ps, m.id2);
    AliasOfFirst(ps, m.id1, FirstWithId(ps, m.id1).value, i);
    AliasOfFirst(ps, m.id2, FirstWithId(ps, m.id2).value, i);
  }

  /** When every player of the matches is on the roster, each entry found by a lookup gains exactly its match scores. */
  lemma {:induction false} CreditAllFirstTotals(ps: seq<Player>, ms: seq<Match>)
    ensures SameRoster(CreditAllFirst(ps, ms).0, ps)
    ensures CreditAllFirst(ps, ms).1.None? ==>
      forall i :: 0 <= i < |ps| ==> CreditAllFirst(ps, ms).0[i].points == ps[i].points + FirstCredit(ps, ms, i)
  {
    if |ms| > 0 {
      var n := |ms| - 1;
      CreditAllFirstTotals(ps, ms[..n]);
      var (ps1, err) := CreditAllFirst(ps, ms[..n]);
      if err.None? && CreditFirst(ps, ps1, ms[n]).Ok? {
        forall i | 0 <= i < |ps|
          ensures CreditFirst(ps, ps1, ms[n]).value[i].points == ps[i].points + FirstCredit(ps, ms, i)
        {
          CreditFirstStep(ps, ps1, ms, i);
        }
      }
    }
  }

  /** Entries that are one object stay one object: equal entries receive equal credits. */
  lemma {:induction false} CreditAllFirstAliases(ps: seq<Player>, ms: seq<Match>, i: nat, j: nat)
    requires i < |ps| && j < |ps| && ps[i] == ps[j]
    ensures CreditAllFirst(ps, ms).0[i] == CreditAllFirst(ps, ms).0[j]
  {
    if |ms| > 0 {
      var n := |ms| - 1;
      CreditAllFirstAliases(ps, ms[..n], i, j);
    }
  }

  /** Every entry with the same id is the same object, as `load` makes it: each gains all its id's scores. */
  predicate SharedById(ps: seq<Player>) {
    forall i, j :: 0 <= i < |ps| && 0 <= j < |ps| && ps[i].id == ps[j].id ==> ps[i] == ps[j]
  }

  /** On a roster whose repeated ids are shared objects, every entry is credited with its id's scores. */
  lemma CreditAllShared(ps: seq<Player>, ms: seq<Match>)
    requires SharedById(ps) && CreditAllFirst(ps, ms).1.None?
    ensures forall i :: 0 <= i < |ps| ==> CreditAllFirst(ps, ms).0[i].points == ps[i].points + MatchesScore(ms, ps[i].id)
  {
    CreditAllFirstTotals(ps, ms);
    forall i | 0 <= i < |ps|
      ensures FoundByLookup(ps, i)
    {
      var a := FirstWithId(ps, ps[i].id).value;
      assert ps[a].id == ps[i].id;
    }
  }

  /** Every match of `ms` names only players on the roster. */
  predicate OnRoster(ps: seq<Player>, ms: seq<Match>) {
    forall j :: 0 <= j < |ms| ==> FirstWithId(ps, ms[j].id1).Some? && FirstWithId(ps, ms[j].id2).Some?
  }

  lemma OnRosterSnoc(ps: seq<Player>, ms: seq<Match>)
    requires |ms| > 0
    ensures OnRoster(ps, ms) <==>
      OnRoster(ps, ms[..|ms| - 1]) && FirstWithId(ps, ms[|ms| - 1].id1).Some? && FirstWithId(ps, ms[|ms| - 1].id2).Some?
  {
    assert forall j :: 0 <= j < |ms| - 1 ==> ms[..|ms| - 1][j] == ms[j];
  }

  /** The crediting loop raises StopIteration exactly when some match names a player not on the roster. */
  lemma {:induction false} CreditAllFirstFails(ps: seq<Player>, ms: seq<Match>)
    ensures CreditAllFirst(ps, ms).1.None? <==> OnRoster(ps, ms)
  {
    if |ms| > 0 {
      var n := |ms| - 1;
      CreditAllFirstFails(ps, ms[..n]);
      CreditAllFirstTotals(ps, ms[..n]);
      var ps1 := CreditAllFirst(ps, ms[..n]).0;
      FirstWithIdSameRoster(ps1, ps, ms[n].id1);
      FirstWithIdSameRoster(ps1, ps, ms[n].id2);
      OnRosterSnoc(ps, ms);
    }
  }

  /** The value `enter_results` returns and the tournament it leaves. */
  datatype Answer = Answer(o: Outcome, returned: bool)

  /**
   * `enter_results`: refused (False, nothing changes) without rounds or when the last
   * round is already closed; otherwise every match of the last round is scored from
   * the input lines, the round is closed and the players are credited.
   */
  function EnterResults(t: Tournament, lines: seq<string>, now: int): (a: Answer)
    ensures |t.rounds| == 0 || IsClosed(t.rounds[|t.rounds| - 1]) ==> a == Answer(Outcome(t, None), false)
    ensures a.returned ==> a.o.raised.None?
    ensures a.o.t == t.(rounds := a.o.t.rounds, players := a.o.t.players)
    ensures |a.o.t.rounds| == |t.rounds| && (|t.rounds| > 0 ==> a.o.t.rounds[..|t.rounds| - 1] == t.rounds[..|t.rounds| - 1])
    ensures a.returned ==>
      var last := a.o.t.rounds[|t.rounds| - 1];
      && IsClosed(last) && last.endTime == Some(now)
      && last.name == t.rounds[|t.rounds| - 1].name
      && last.matches == ScoreMatches(t.rounds[|t.rounds| - 1].matches, Results(lines)).0
  {
    if |t.rounds| == 0 then Answer(Outcome(t, None), false)
    else
      var n := |t.rounds| - 1;
      var rnd := t.rounds[n];
      if IsClosed(rnd) then Answer(Outcome(t, None), false)
      else
        var (ms, err) := ScoreMatches(rnd.matches, Results(lines));
        if err.Some? then
          var t1 := t.(rounds := t.rounds[n := rnd.(matches := ms)]);
          assert t1.rounds[..n] == t.rounds[..n];
          Answer(Outcome(t1, err), false)
        else
          var t1 := t.(rounds := t.rounds[n := Close(rnd.(matches := ms), now)]);
          assert t1.rounds[..n] == t.rounds[..n];
          var (ps, err2) := CreditAllFirst(t.players, ms);
          Answer(Outcome(t1.(players := ps), err2), err2.None?)
  }

  /**
   * After a successful entry every player's score has grown by their scores in the
   * round just closed — at every roster entry that is the object the lookup of their id
   * lands on; entries are found exactly when every player of the round is on the roster.
   */
  lemma EnterResultsCredits(t: Tournament, lines: seq<string>, now: int)
    requires |t.rounds| > 0 && !IsClosed(t.rounds[|t.rounds| - 1])
    requires ScoreMatches(t.rounds[|t.rounds| - 1].matches, Results(lines)).1.None?
    ensures var a := EnterResults(t, lines, now);
      var ms := a.o.t.rounds[|t.rounds| - 1].matches;
      && (a.returned <==> OnRoster(t.players, ms))
      && SameRoster(a.o.t.players, t.players)
      && (a.returned ==> forall i :: 0 <= i < |t.players| ==>
            a.o.t.players[i].points == t.players[i].points + FirstCredit(t.players, ms, i))
      && |ms| <= |GivenInOrder(Results(lines))|
      && (forall j :: 0 <= j < |ms| ==> (ms[j].score1, ms[j].score2) == GivenInOrder(Results(lines))[j])
  {
    var ms := ScoreMatches(t.rounds[|t.rounds| - 1].matches, Results(lines)).0;
    CreditAllFirstFails(t.players, ms);
    CreditAllFirstTotals(t.players, ms);
  }

  // ---------- next_round ----------

  /** Some match of some round pairs `a` with `b`, in either order. */
  predicate Played(rs: seq<Round>, a: string, b: string) {
    exists r, j :: 0 <= r < |rs| && 0 <= j < |rs[r].matches| &&
      ((rs[r].matches[j].id1 == a && rs[r].matches[j].id2 == b) ||
       (rs[r].matches[j].id1 == b && rs[r].matches[j].id2 == a))
  }

  /**
   * The player at `q` may face the player at `i`: another entry of the list, not paired
   * yet in this round, and, when `unmet`, not met in any earlier round.
   */
  predicate Candidate(order: seq<Player>, rs: seq<Round>, used: set<string>, i: nat, q: nat, unmet: bool)
    requires i < |order|
  {
    q < |order| && order[q] != order[i] && order[q].id !in used && (unmet ==> !Played(rs, order[i].id, order[q].id))
  }

  /** The first candidate at or after `start`. */
  function FirstCandidate(order: seq<Player>, rs: seq<Round>, used: set<string>, i: nat, start: nat, unmet: bool): (k: Option<nat>)
    requires i < |order|
    ensures k.Some? ==> start <= k.value && Candidate(order, rs, used, i, k.value, unmet)
    ensures k.Some? ==> forall q :: start <= q < k.value ==> !Candidate(order, rs, used, i, q, unmet)
    ensures k.None? ==> forall q :: start <= q ==> !Candidate(order, rs, used, i, q, unmet)
    decreases |order| - start
  {
    if start >= |order| then None
    else if Candidate(order, rs, used, i, start, unmet) then Some(start)
    else FirstCandidate(order, rs, used, i, start + 1, unmet)
  }

  /**
   * The opponent of the player at `i`: the best-placed unpaired player they have not
   * met yet; failing that, the best-placed unpaired player at all; `None` when every
   * other player is already paired (the bare `next(...)` then raises StopIteration).
   */
  function Opponent(order: seq<Player>, rs: seq<Round>, used: set<string>, i: nat): (k: Option<nat>)
    requires i < |order|
    ensures k.None? <==> forall q :: !Candidate(order, rs, used, i, q, false)
    ensures k.Some? ==> Candidate(order, rs, used, i, k.value, false)
    ensures k.Some? && (exists q :: Candidate(order, rs, used, i, q, true)) ==>
              Candidate(order, rs, used, i, k.value, true)
    ensures k.Some? && (exists q :: Candidate(order, rs, used, i, q, true)) ==>
              forall q :: 0 <= q < k.value ==> !Candidate(order, rs, used, i, q, true)
    ensures k.Some? && (forall q :: !Candidate(order, rs, used, i, q, true)) ==>
              forall q :: 0 <= q < k.value ==> !Candidate(order, rs, used, i, q, false)
  {
    match FirstCandidate(order, rs, used, i, 0, true)
    case Some(q) => assert Candidate(order, rs, used, i, q, false); Some(q)
    case None => FirstCandidate(order, rs, used, i, 0, false)
  }

  /**
   * The pairing loop from position `i` on, with the ids in `used` already paired:
   * a paired player is skipped, anyone else is matched with their `Opponent`.
   */
  function NextPairs(order: seq<Player>, rs: seq<Round>, i: nat, used: set<string>): (r: Result<seq<Match>, Error>)
    requires i <= |order|
    ensures r.Err? ==> r.error == NotFound
    ensures r.Ok? ==> Unscored(r.value)
    decreases |order| - i
  {
    if i == |order| then Ok([])
    else if order[i].id in used then NextPairs(order, rs, i + 1, used)
    else
      match Opponent(order, rs, used, i)
      case None => Err(NotFound)
      case Some(q) =>
        match NextPairs(order, rs, i + 1, used + {order[i].id, order[q].id})
        case Err(e) => Err(e)
        case Ok(ms) =>
          Pairing.UnscoredCons(NewMatch(order[i].id, order[q].id), ms);
          Ok([NewMatch(order[i].id, order[q].id)] + ms)
  }

  /** The ids of the players from position `i` on that are not paired yet, in list order. */
  function FreshIds(order: seq<Player>, used: set<string>, i: nat): seq<string>
    decreases |order| - i
  {
    if i >= |order| then [] else (if order[i].id in used then [] else [order[i].id]) + FreshIds(order, used, i + 1)
  }

  /** Marking `x` as paired drops every copy of `x` from the unpaired ids and nothing else. */
  lemma {:induction false} FreshRemove(order: seq<Player>, used: set<string>, i: nat, x: string)
    ensures multiset(FreshIds(order, used + {x}, i)) == multiset(FreshIds(order, used, i))[x := 0]
    decreases |order| - i
  {
    if i < |order| {
      FreshRemove(order, used, i + 1, x);
    }
  }

  /** Every unpaired id is the id of some unpaired player from `i` on. */
  lemma {:induction false} FreshMember(order: seq<Player>, used: set<string>, i: nat, x: string) returns (j: nat)
    requires x in multiset(FreshIds(order, used, i))
    ensures i <= j < |order| && order[j].id == x && x !in used
    decreases |order| - i
  {
    if i >= |order| {
      assert false;
    } else if order[i].id == x && x !in used {
      j := i;
    } else {
      j := FreshMember(order, used, i + 1, x);
    }
  }

  /** An id no unpaired player from `i` on carries is not among the unpaired ids. */
  lemma {:induction false} FreshAbsent(order: seq<Player>, used: set<string>, i: nat, x: string)
    requires forall j :: i <= j < |order| ==> order[j].id != x
    ensures multiset(FreshIds(order, used, i))[x] == 0
    decreases |order| - i
  {
    if i < |order| {
      FreshAbsent(order, used, i + 1, x);
    }
  }

  /** With distinct ids, an unpaired player from `i` on is counted once. */
  lemma {:induction false} FreshOnce(order: seq<Player>, used: set<string>, i: nat, q: nat)
    requires UniqueIds(order) && i <= q < |order| && order[q].id !in used
    ensures multiset(FreshIds(order, used, i))[order[q].id] == 1
    decreases |order| - i
  {
    if i < q {
      FreshOnce(order, used, i + 1, q);
    } else {
      FreshAbsent(order, used, i + 1, order[q].id);
    }
  }

  /** Before any pairing, the unpaired ids are the ids of the list. */
  lemma {:induction false} FreshAll(order: seq<Player>, i: nat)
    requires i <= |order|
    ensures FreshIds(order, {}, i) == Ids(order[i..])
    decreases |order| - i
  {
    if i < |order| {
      FreshAll(order, i + 1);
      assert order[i..][1..] == order[i + 1..];
    }
  }

  /**
   * The counting behind one pairing step: from `[x] + rest`, dropping `x` (absent from
   * `rest`) and the single copy of `y` leaves two fewer elements, `x` and `y`.
   */
  lemma DropPair(whole: seq<string>, rest: seq<string>, rest': seq<string>, x: string, y: string)
    requires whole == [x] + rest
    requires multiset(rest') == multiset(rest)[x := 0][y := 0]
    requires multiset(rest)[x] == 0 && multiset(rest)[y] == 1
    ensures |rest'| + 2 == |whole|
    ensures multiset{x, y} + multiset(rest') == multiset(whole)
  {
    var m, m' := multiset(rest), multiset(rest');
    assert forall z :: (m' + multiset{y})[z] == m[z];
    assert m' + multiset{y} == m;
    calc {
      multiset{x, y} + m';
      multiset{x} + (m' + multiset{y});
      multiset{x} + m;
      multiset(whole);
    }
  }

  /** One pairing step leaves two fewer unpaired ids from `k`, the next position: the player's and the opponent's. */
  lemma {:induction false} FreshStep(order: seq<Player>, used: set<string>, i: nat, q: nat, k: nat)
    requires UniqueIds(order) && i < q < |order| && k == i + 1
    requires order[i].id !in used && order[q].id !in used
    ensures |FreshIds(order, used + {order[i].id, order[q].id}, k)| + 2 == |FreshIds(order, used, i)|
    ensures multiset{order[i].id, order[q].id} + multiset(FreshIds(order, used + {order[i].id, order[q].id}, k)) ==
              multiset(FreshIds(order, used, i))
  {
    var p, oq := order[i].id, order[q].id;
    FreshHead(order, used, i);
    FreshPairCounts(order, used, k, p, q);
    FreshPairDropped(order, used, k, p, oq);
    DropPair(FreshIds(order, used, i), FreshIds(order, used, k), FreshIds(order, used + {p, oq}, k), p, oq);
  }

  /**
   * An unpaired player heads the unpaired ids from its own position, and with distinct
   * ids nobody after it carries its id.
   */
  lemma {:induction false} FreshHead(order: seq<Player>, used: set<string>, i: nat)
    requires UniqueIds(order) && i < |order| && order[i].id !in used
    ensures FreshIds(order, used, i) == [order[i].id] + FreshIds(order, used, i + 1)
    ensures forall j :: i + 1 <= j < |order| ==> order[j].id != order[i].id
  {
  }

  /**
   * Counts among the unpaired ids from `k` on: an id nobody from `k` on carries is
   * absent, and the id of an unpaired player at or after `k` appears once.
   */
  lemma {:induction false} FreshPairCounts(order: seq<Player>, used: set<string>, k: nat, p: string, q: nat)
    requires UniqueIds(order) && k <= q < |order| && order[q].id !in used
    requires forall j :: k <= j < |order| ==> order[j].id != p
    ensures multiset(FreshIds(order, used, k))[p] == 0
    ensures multiset(FreshIds(order, used, k))[order[q].id] == 1
  {
    FreshAbsent(order, used, k, p);
    FreshOnce(order, used, k, q);
  }

  /** Marking `p` and `oq` as paired drops exactly their copies from the unpaired ids from `k` on. */
  lemma {:induction false} FreshPairDropped(order: seq<Player>, used: set<string>, k: nat, p: string, oq: string)
    ensures multiset(FreshIds(order, used + {p, oq}, k)) == multiset(FreshIds(order, used, k))[p := 0][oq := 0]
  {
    FreshRemove(order, used, k, p);
    assert used + {p, oq} == (used + {p}) + {oq};
    FreshRemove(order, used + {p}, k, oq);
  }

  lemma PlusTwoParity(a: nat, b: nat)
    requires a + 2 == b
    ensures a % 2 == b % 2
  {
  }

  /** Pairing is stuck for the player at `i` only when nobody else is left unpaired. */
  lemma PartitionStuck(order: seq<Player>, rs: seq<Round>, i: nat, used: set<string>)
    requires UniqueIds(order) && i < |order| && order[i].id !in used
    requires Opponent(order, rs, used, i).None?
    ensures NextPairs(order, rs, i, used).Err?
    ensures |FreshIds(order, used, i)| % 2 == 1
  {
    assert FreshIds(order, used, i) == [order[i].id] + FreshIds(order, used, i + 1);
    if |FreshIds(order, used, i + 1)| > 0 {
      var j := FreshMember(order, used, i + 1, FreshIds(order, used, i + 1)[0]);
      assert order[j].id != order[i].id;
      assert Candidate(order, rs, used, i, j, false);
      assert false;
    }
  }

  /** One match formed: success and the ids used carry over from the rest of the loop. */
  lemma PartitionStep(order: seq<Player>, rs: seq<Round>, i: nat, used: set<string>, q: nat)
    requires UniqueIds(order) && i < q < |order|
    requires order[i].id !in used && Opponent(order, rs, used, i) == Some(q)
    requires var used' := used + {order[i].id, order[q].id};
      && (NextPairs(order, rs, i + 1, used').Ok? <==> |FreshIds(order, used', i + 1)| % 2 == 0)
      && (NextPairs(order, rs, i + 1, used').Ok? ==>
            multiset(MatchIds(NextPairs(order, rs, i + 1, used').value)) == multiset(FreshIds(order, used', i + 1)))
    ensures NextPairs(order, rs, i, used).Ok? <==> |FreshIds(order, used, i)| % 2 == 0
    ensures NextPairs(order, rs, i, used).Ok? ==>
              multiset(MatchIds(NextPairs(order, rs, i, used).value)) == multiset(FreshIds(order, used, i))
  {
    var p := order[i].id;
    var used' := used + {p, order[q].id};
    FreshStep(order, used, i, q, i + 1);
    PlusTwoParity(|FreshIds(order, used', i + 1)|, |FreshIds(order, used, i)|);
    match NextPairs(order, rs, i + 1, used')
    case Err(_) =>
    case Ok(ms) =>
      assert NextPairs(order, rs, i, used) == Ok([NewMatch(p, order[q].id)] + ms);
      Pairing.MatchIdsCons(NewMatch(p, order[q].id), ms);
  }

  /**
   * The pairing succeeds exactly when an even number of players is left unpaired, and
   * then its matches use each of them once: with distinct ids, everybody plays, once.
   */
  lemma {:induction false} NextPairsPartition(order: seq<Player>, rs: seq<Round>, i: nat, used: set<string>)
    requires UniqueIds(order) && i <= |order|
    requires forall j :: 0 <= j < i ==> order[j].id in used
    ensures NextPairs(order, rs, i, used).Ok? <==> |FreshIds(order, used, i)| % 2 == 0
    ensures NextPairs(order, rs, i, used).Ok? ==>
              multiset(MatchIds(NextPairs(order, rs, i, used).value)) == multiset(FreshIds(order, used, i))
    decreases |order| - i
  {
    if i == |order| {
    } else if order[i].id in used {
      assert FreshIds(order, used, i) == FreshIds(order, used, i + 1);
      NextPairsPartition(order, rs, i + 1, used);
    } else {
      match Opponent(order, rs, used, i)
      case None =>
        PartitionStuck(order, rs, i, used);
      case Some(q) =>
        assert q > i;
        NextPairsPartition(order, rs, i + 1, used + {order[i].id, order[q].id});
        PartitionStep(order, rs, i, used, q);
    }
  }

  /**
   * The `k`-th match repeats a game of an earlier round only if its first player has
   * already met every player paired after it.
   */
  predicate RematchForced(rs: seq<Round>, ms: seq<Match>, k: nat)
    requires k < |ms|
  {
    Played(rs, ms[k].id1, ms[k].id2) ==>
      forall j :: k < j < |ms| ==> Played(rs, ms[k].id1, ms[j].id1) && Played(rs, ms[k].id1, ms[j].id2)
  }

  lemma RematchShift(rs: seq<Round>, m: Match, ms: seq<Match>, k: nat)
    requires 0 < k <= |ms| && RematchForced(rs, ms, k - 1)
    ensures RematchForced(rs, [m] + ms, k)
  {
    var all := [m] + ms;
    assert all[k] == ms[k - 1];
    assert forall j :: k < j < |all| ==> all[j] == ms[j - 1];
  }

  /** With no unmet candidate left, the player at `i` has met everyone still unpaired. */
  lemma MetEveryUnpaired(order: seq<Player>, rs: seq<Round>, used: set<string>, i: nat, used': set<string>, x: string)
    requires i < |order| && used <= used' && order[i].id in used'
    requires forall c :: !Candidate(order, rs, used, i, c, true)
    requires x in multiset(FreshIds(order, used', i + 1))
    ensures Played(rs, order[i].id, x)
  {
    var a := FreshMember(order, used', i + 1, x);
    assert !Candidate(order, rs, used, i, a, true);
  }

  /** The player at `i` repeats a game only when everyone still unpaired has met them. */
  lemma RematchHead(order: seq<Player>, rs: seq<Round>, i: nat, used: set<string>, q: nat, ms: seq<Match>)
    requires i < |order| && order[i].id !in used && Opponent(order, rs, used, i) == Some(q)
    requires multiset(MatchIds(ms)) == multiset(FreshIds(order, used + {order[i].id, order[q].id}, i + 1))
    ensures RematchForced(rs, [NewMatch(order[i].id, order[q].id)] + ms, 0)
  {
    var p, oq := order[i].id, order[q].id;
    var all := [NewMatch(p, oq)] + ms;
    if Played(rs, p, oq) {
      assert !Candidate(order, rs, used, i, q, true);
      assert forall c :: !Candidate(order, rs, used, i, c, true);
      forall j | 0 < j < |all|
        ensures Played(rs, p, all[j].id1) && Played(rs, p, all[j].id2)
      {
        assert all[j] == ms[j - 1];
        Pairing.InMatchIds(ms, j - 1);
        MetEveryUnpaired(order, rs, used, i, used + {p, oq}, ms[j - 1].id1);
        MetEveryUnpaired(order, rs, used, i, used + {p, oq}, ms[j - 1].id2);
      }
    }
  }

  /** Every match of the pairing repeats an earlier game only when it has to. */
  lemma {:induction false} NextPairsRematch(order: seq<Player>, rs: seq<Round>, i: nat, used: set<string>, k: nat)
    requires UniqueIds(order) && i <= |order|
    requires forall j :: 0 <= j < i ==> order[j].id in used
    requires NextPairs(order, rs, i, used).Ok? && k < |NextPairs(order, rs, i, used).value|
    ensures RematchForced(rs, NextPairs(order, rs, i, used).value, k)
    decreases |order| - i
  {
    if order[i].id in used {
      NextPairsRematch(order, rs, i + 1, used, k);
    } else {
      var q := Opponent(order, rs, used, i).value;
      var used' := used + {order[i].id, order[q].id};
      var ms := NextPairs(order, rs, i + 1, used').value;
      assert NextPairs(order, rs, i, used).value == [NewMatch(order[i].id, order[q].id)] + ms;
      if k == 0 {
        NextPairsPartition(order, rs, i + 1, used');
        RematchHead(order, rs, i, used, q, ms);
      } else {
        NextPairsRematch(order, rs, i + 1, used', k - 1);
        RematchShift(rs, NewMatch(order[i].id, order[q].id), ms, k);
      }
    }
  }

  /** The ids seated by a list of matches. */
  function Seated(ms: seq<Match>): set<string> {
    if |ms| == 0 then {} else {ms[0].id1, ms[0].id2} + Seated(ms[1..])
  }

  /** The first position from `i` on whose player is not paired yet. */
  function FirstFresh(order: seq<Player>, used: set<string>, i: nat): (j: Option<nat>)
    ensures j.Some? ==> i <= j.value < |order| && order[j.value].id !in used
    ensures j.Some? ==> forall l :: i <= l < j.value ==> order[l].id in used
    ensures j.None? <==> forall l :: i <= l < |order| ==> order[l].id in used
    decreases |order| - i
  {
    if i >= |order| then None
    else if order[i].id !in used then Some(i)
    else FirstFresh(order, used, i + 1)
  }

  /**
   * One turn of the pairing loop: a player already paired is skipped; anyone else is
   * seated in the first match with their `Opponent`, and the later players are paired
   * with both ids marked as paired.
   */
  lemma NextPairsStep(order: seq<Player>, rs: seq<Round>, i: nat, used: set<string>)
    requires i < |order|
    ensures order[i].id in used ==> NextPairs(order, rs, i, used) == NextPairs(order, rs, i + 1, used)
    ensures order[i].id !in used && NextPairs(order, rs, i, used).Ok? ==> Opponent(order, rs, used, i).Some?
    ensures order[i].id !in used && NextPairs(order, rs, i, used).Ok? ==>
      var q := Opponent(order, rs, used, i).value;
      var rest := NextPairs(order, rs, i + 1, used + {order[i].id, order[q].id});
      && rest.Ok?
      && NextPairs(order, rs, i, used).value == [NewMatch(order[i].id, order[q].id)] + rest.value
  {
  }

  /**
   * Match `k` of the pairing seats the best-placed player the earlier matches left
   * unpaired with that player's `Opponent` among the players still unpaired.
   */
  lemma {:induction false} NextPairsMatch(order: seq<Player>, rs: seq<Round>, i: nat, used: set<string>, k: nat)
    requires i <= |order|
    requires NextPairs(order, rs, i, used).Ok? && k < |NextPairs(order, rs, i, used).value|
    ensures var ms := NextPairs(order, rs, i, used).value;
      var u := used + Seated(ms[..k]);
      && FirstFresh(order, u, i).Some?
      && Opponent(order, rs, u, FirstFresh(order, u, i).value).Some?
      && ms[k] == NewMatch(order[FirstFresh(order, u, i).value].id,
                           order[Opponent(order, rs, u, FirstFresh(order, u, i).value).value].id)
    decreases |order| - i
  {
    var ms := NextPairs(order, rs, i, used).value;
    if order[i].id in used {
      NextPairsMatch(order, rs, i + 1, used, k);
    } else {
      var q := Opponent(order, rs, used, i).value;
      var used' := used + {order[i].id, order[q].id};
      var rest := NextPairs(order, rs, i + 1, used').value;
      assert ms == [NewMatch(order[i].id, order[q].id)] + rest;
      if k == 0 {
        assert used + Seated(ms[..0]) == used;
      } else {
        NextPairsMatch(order, rs, i + 1, used', k - 1);
        assert ms[..k][1..] == rest[..k - 1];
        assert used + Seated(ms[..k]) == used' + Seated(rest[..k - 1]);
      }
    }
  }

  /**
   * `next_round`: refused, changing nothing, once every planned round exists or while
   * the last round is still open; otherwise the players, in standings order, are paired
   * and a new open round named after its number is appended. A player left without an
   * opponent raises StopIteration and nothing is appended.
   */
  function NextRound(t: Tournament, now: int): (a: Answer)
    ensures |t.rounds| >= t.totalRounds ==> a == Answer(Outcome(t, None), false)
    ensures |t.rounds| > 0 && !IsClosed(t.rounds[|t.rounds| - 1]) ==> a == Answer(Outcome(t, None), false)
    ensures !a.returned ==> a.o.t == t && (a.o.raised.None? || a.o.raised == Some(NotFound))
    ensures a.returned ==> a.o.raised.None? && a.o.t == t.(rounds := a.o.t.rounds)
    ensures a.returned ==> |a.o.t.rounds| == |t.rounds| + 1 && a.o.t.rounds[..|t.rounds|] == t.rounds
    ensures a.returned ==>
      var r := a.o.t.rounds[|t.rounds|];
      && r.name == Lifecycle.RoundName(|t.rounds|) && r.startTime == now && !IsClosed(r)
      && Unscored(r.matches)
    ensures a.returned ==> NextPairs(Standings(t.players), t.rounds, 0, {}).Ok?
    ensures a.returned ==>
      a.o.t.rounds[|t.rounds|].matches == NextPairs(Standings(t.players), t.rounds, 0, {}).value
    ensures !a.returned && a.o.raised.Some? ==> NextPairs(Standings(t.players), t.rounds, 0, {}).Err?
    ensures |t.rounds| < t.totalRounds && (|t.rounds| == 0 || IsClosed(t.rounds[|t.rounds| - 1])) ==>
      (a.returned <==> NextPairs(Standings(t.players), t.rounds, 0, {}).Ok?)
    ensures |t.rounds| < t.totalRounds && (|t.rounds| == 0 || IsClosed(t.rounds[|t.rounds| - 1])) ==>
      (!a.returned ==> a.o.raised == Some(NotFound))
  {
    if |t.rounds| >= t.totalRounds then Answer(Outcome(t, None), false)
    else if |t.rounds| > 0 && !IsClosed(t.rounds[|t.rounds| - 1]) then Answer(Outcome(t, None), false)
    else
      match NextPairs(Standings(t.players), t.rounds, 0, {})
      case Err(e) => Answer(Outcome(t, Some(e)), false)
      case Ok(ms) =>
        var t1 := t.(rounds := t.rounds + [OpenRound(Lifecycle.RoundName(|t.rounds|), ms, now)]);
        assert t1.rounds[..|t.rounds|] == t.rounds;
        Answer(Outcome(t1, None), true)
  }

  /**
   * With distinct ids, pairing a whole list succeeds exactly when it is even; it then
   * seats every player once, and repeats earlier games only where it has to.
   */
  lemma PairsEveryone(order: seq<Player>, rs: seq<Round>)
    requires UniqueIds(order)
    ensures NextPairs(order, rs, 0, {}).Ok? <==> |order| % 2 == 0
    ensures NextPairs(order, rs, 0, {}).Ok? ==>
      var ms := NextPairs(order, rs, 0, {}).value;
      && multiset(MatchIds(ms)) == multiset(Ids(order))
      && forall k :: 0 <= k < |ms| ==> RematchForced(rs, ms, k)
  {
    NextPairsPartition(order, rs, 0, {});
    FreshAll(order, 0);
    assert order[0..] == order;
    if NextPairs(order, rs, 0, {}).Ok? {
      var ms := NextPairs(order, rs, 0, {}).value;
      forall k | 0 <= k < |ms|
        ensures RematchForced(rs, ms, k)
      {
        NextPairsRematch(order, rs, 0, {}, k);
      }
    }
  }

  /**
   * When the guards let it through and ids are distinct, the next round is generated
   * exactly when the roster is even; it then seats every player once, and each match
   * repeats an earlier game only if its first player has met everyone paired after it.
   */
  lemma NextRoundPairsEveryone(t: Tournament, now: int)
    requires UniqueIds(t.players)
    requires |t.rounds| < t.totalRounds && (|t.rounds| == 0 || IsClosed(t.rounds[|t.rounds| - 1]))
    ensures NextRound(t, now).returned <==> |t.players| % 2 == 0
    ensures !NextRound(t, now).returned ==> NextRound(t, now).o.raised == Some(NotFound)
    ensures NextRound(t, now).returned ==>
      var ms := NextRound(t, now).o.t.rounds[|t.rounds|].matches;
      && multiset(MatchIds(ms)) == multiset(Ids(t.players))
      && forall k :: 0 <= k < |ms| ==> RematchForced(t.rounds, ms, k)
    ensures NextRound(t, now).returned ==>
      NextRound(t, now).o.t.rounds[|t.rounds|].matches == NextPairs(Standings(t.players), t.rounds, 0, {}).value
  {
    var a, np := NextRound(t, now), NextPairs(Standings(t.players), t.rounds, 0, {});
    StandingsPairsEveryone(t.players, t.rounds);
    if a.returned {
      assert a.o.t.rounds[|t.rounds|].matches == np.value;
    } else {
      assert np.Err? && a.o.raised == Some(NotFound);
    }
  }

  /** One object listed twice has no opponent: its other entry is itself, so `next(...)` raises. */
  lemma SelfPairingRefused(p: Player, rs: seq<Round>)
    ensures NextPairs([p, p], rs, 0, {}) == Err(NotFound)
  {
    assert forall q :: !Candidate([p, p], rs, {}, 0, q, false);
  }

  /** A roster of one player entered twice gets no round: StopIteration, nothing appended. */
  lemma NextRoundSelfRefused(t: Tournament, now: int)
    requires |t.rounds| < t.totalRounds && (|t.rounds| == 0 || IsClosed(t.rounds[|t.rounds| - 1]))
    requires |t.players| == 2 && t.players[0] == t.players[1]
    ensures !NextRound(t, now).returned && NextRound(t, now).o.raised == Some(NotFound)
    ensures NextRound(t, now).o.t == t
  {
    StandingsTwice(t.players);
    assert t.players == [t.players[0], t.players[0]];
    SelfPairingRefused(t.players[0], t.rounds);
  }

  lemma StandingsTwice(ps: seq<Player>)
    requires |ps| == 2 && ps[0] == ps[1]
    ensures Standings(ps) == ps
  {
    TwiceOnlyPermutation(ps, Standings(ps));
  }

  /** The only rearrangement of one entry listed twice is the list itself. */
  lemma TwiceOnlyPermutation(a: seq<Player>, b: seq<Player>)
    requires |a| == 2 && a[0] == a[1] && multiset(b) == multiset(a)
    ensures b == a
  {
    assert a == [a[0]] + [a[0]];
    assert multiset(b) == multiset{a[0], a[0]};
    assert |b| == 2;
    assert b[0] in multiset(b) && b[1] in multiset(b);
  }

  /** Pairing the standings of a roster with distinct ids seats exactly that roster. */
  lemma StandingsPairsEveryone(players: seq<Player>, rs: seq<Round>)
    requires UniqueIds(players)
    ensures NextPairs(Standings(players), rs, 0, {}).Ok? <==> |players| % 2 == 0
    ensures NextPairs(Standings(players), rs, 0, {}).Ok? ==>
      var ms := NextPairs(Standings(players), rs, 0, {}).value;
      && multiset(MatchIds(ms)) == multiset(Ids(players))
      && forall k :: 0 <= k < |ms| ==> RematchForced(rs, ms, k)
  {
    var order := Standings(players);
    UniqueIdsPermuted(players, order);
    PairsEveryone(order, rs);
    IdsPermutation(order, players);
  }

  /**
   * The Swiss rule of `next_round`: match `k` seats the best-placed player in standings
   * order whom the earlier matches left unpaired, with that player's `Opponent` among
   * the players still unpaired.
   */
  lemma NextRoundSwiss(t: Tournament, now: int, k: nat)
    requires NextRound(t, now).returned
    requires k < |NextRound(t, now).o.t.rounds[|t.rounds|].matches|
    ensures var order := Standings(t.players);
      var ms := NextRound(t, now).o.t.rounds[|t.rounds|].matches;
      var u := Seated(ms[..k]);
      && FirstFresh(order, u, 0).Some?
      && Opponent(order, t.rounds, u, FirstFresh(order, u, 0).value).Some?
      && ms[k] == NewMatch(order[FirstFresh(order, u, 0).value].id,
                           order[Opponent(order, t.rounds, u, FirstFresh(order, u, 0).value).value].id)
  {
    var ms := NextRound(t, now).o.t.rounds[|t.rounds|].matches;
    NextPairsMatch(Standings(t.players), t.rounds, 0, {}, k);
    assert {} + Seated(ms[..k]) == Seated(ms[..k]);
  }

  /**
   * The leader of the standings opens the round: the first match seats them with
   * their `Opponent`, whatever the roster.
   */
  lemma NextRoundLeaderFirst(t: Tournament, now: int)
    requires NextRound(t, now).returned && |t.players| > 0
    ensures var order := Standings(t.players);
      var ms := NextRound(t, now).o.t.rounds[|t.rounds|].matches;
      && |ms| > 0 && Opponent(order, t.rounds, {}, 0).Some?
      && ms[0] == NewMatch(order[0].id, order[Opponent(order, t.rounds, {}, 0).value].id)
  {
    NextPairsStep(Standings(t.players), t.rounds, 0, {});
  }
}
