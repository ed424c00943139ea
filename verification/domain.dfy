/**
 * The entities of models/tournament.py, models/round.py and models/player.py,
 * and the bookkeeping every operation on them shares: ids, pairing history,
 * Python list indexing and score sums.
 */
module Domain {
  import opened Wrappers
  import opened Matches

  /** A registered player; `points` is in half-points. */
  datatype Player = Player(id: string, lastName: string, firstName: string, birthDate: string, points: int)

  /** A round: closed exactly when its end time is set. Times are clock readings. */
  datatype Round = Round(name: string, matches: seq<Match>, startTime: int, endTime: Option<int>)

  datatype Tournament = Tournament(
    name: string,
    place: string,
    startDate: string,
    endDate: string,
    description: string,
    totalRounds: int,
    status: string,
    currentRoundIndex: int,
    players: seq<Player>,
    rounds: seq<Round>,
    history: seq<(string, string)>)

  const NotStarted: string := "non démarré"
  const InProgress: string := "en cours"
  const Finished: string := "terminé"

  /** The round budget a tournament gets when none is given. */
  const DefaultTotalRounds: int := 4

  /** One result to record: round index, match index, and the two scores. */
  datatype Entry = Entry(roundIndex: int, matchIndex: int, score1: int, score2: int)

  /** The exceptions the core can raise. */
  datatype Error =
    | OddRoster        // the ValueError raised by the pairing on an odd roster
    | RoundsExhausted  // the ValueError raised when every planned round exists
    | IndexOutOfRange  // IndexError from list indexing
    | UnknownId        // KeyError from a lookup by player id
    | NotFound         // StopIteration from `next(...)` over an exhausted generator
    | NotInList        // ValueError from `list.remove`
    | EndOfInput       // EOFError from `input()` once the input is exhausted

  /** The tournament as an operation leaves it, and the exception it raised, if any. */
  datatype Outcome = Outcome(t: Tournament, raised: Option<Error>)

  /** A freshly created tournament (`Tournament.__init__`). */
  function NewTournament(name: string, place: string, startDate: string, endDate: string,
                         description: string, totalRounds: int): (t: Tournament)
    ensures t.status == NotStarted && t.currentRoundIndex == 0
    ensures t.players == [] && t.rounds == [] && t.history == []
    ensures t.name == name && t.totalRounds == totalRounds
  {
    Tournament(name, place, startDate, endDate, description, totalRounds, NotStarted, 0, [], [], [])
  }

  /** `Round(name=..., matches=...)`: starts now and is open. */
  function OpenRound(name: string, matches: seq<Match>, now: int): Round {
    Round(name, matches, now, None)
  }

  predicate IsClosed(r: Round) {
    r.endTime.Some?
  }

  /** Closing a round stamps its end time and changes nothing else. */
  function Close(r: Round, now: int): (c: Round)
    ensures IsClosed(c)
    ensures c.name == r.name && c.matches == r.matches && c.startTime == r.startTime
  {
    r.(endTime := Some(now))
  }

  /**
   * Python's resolution of `xs[i]` on a list of length `n`: a negative index counts
   * from the end, and anything outside `-n .. n-1` is an IndexError (`None`).
   */
  function PyIndex(n: nat, i: int): (k: Option<nat>)
    ensures k.Some? <==> -(n as int) <= i < n
    ensures k.Some? ==> k.value < n && (k.value as int == i || k.value as int == i + n)
  {
    if 0 <= i < n then Some(i) else if -(n as int) <= i < 0 then Some((i + n) as nat) else None
  }

  // ---------- ids and history ----------

  function Ids(ps: seq<Player>): (r: seq<string>)
    ensures |r| == |ps|
    ensures forall i :: 0 <= i < |ps| ==> r[i] == ps[i].id
  {
    if |ps| == 0 then [] else [ps[0].id] + Ids(ps[1..])
  }

  lemma IdsAppend(a: seq<Player>, b: seq<Player>)
    ensures Ids(a + b) == Ids(a) + Ids(b)
  {
  }

  predicate UniqueIds(ps: seq<Player>) {
    forall i, j :: 0 <= i < j < |ps| ==> ps[i].id != ps[j].id
  }

  /** The ids of each match in turn: first player, then second player. */
  function MatchIds(ms: seq<Match>): (r: seq<string>)
    ensures |r| == 2 * |ms|
  {
    if |ms| == 0 then [] else [ms[0].id1, ms[0].id2] + MatchIds(ms[1..])
  }

  /** The `(id1, id2)` pair of each match, in match order. */
  function PairsOf(ms: seq<Match>): (r: seq<(string, string)>)
    ensures |r| == |ms|
    ensures forall i :: 0 <= i < |ms| ==> r[i] == (ms[i].id1, ms[i].id2)
  {
    seq(|ms|, i requires 0 <= i < |ms| => (ms[i].id1, ms[i].id2))
  }

  /** The history records a game between `a` and `b`, in either order. */
  predicate Met(hist: seq<(string, string)>, a: string, b: string) {
    (a, b) in hist || (b, a) in hist
  }

  lemma MetSymmetric(hist: seq<(string, string)>, a: string, b: string)
    ensures Met(hist, a, b) <==> Met(hist, b, a)
  {
  }

  /** Removing the element at `k` removes exactly one copy of it. */
  lemma RemoveAtMultiset<T>(s: seq<T>, k: nat)
    requires k < |s|
    ensures multiset(s[..k] + s[k + 1..]) == multiset(s) - multiset{s[k]}
  {
    assert s == s[..k] + [s[k]] + s[k + 1..];
  }

  /** Removing the element at `k` removes exactly its id. */
  lemma IdsRemoveAt(s: seq<Player>, k: nat)
    requires k < |s|
    ensures multiset(Ids(s)) == multiset(Ids(s[..k] + s[k + 1..])) + multiset{s[k].id}
  {
    assert s == s[..k] + s[k..];
    assert s[k..][1..] == s[k + 1..];
    IdsAppend(s[..k], s[k..]);
    IdsAppend(s[..k], s[k + 1..]);
    assert Ids(s[k..]) == [s[k].id] + Ids(s[k + 1..]);
  }

  /** The first element of `a` sits somewhere in a permutation `b` of it; the rests match. */
  lemma PermutedHead<T>(a: seq<T>, b: seq<T>) returns (k: nat)
    requires multiset(a) == multiset(b) && |a| > 0
    ensures k < |b| && b[k] == a[0]
    ensures multiset(a[1..]) == multiset(b[..k] + b[k + 1..])
  {
    assert a[0] in multiset(a);
    assert a[0] in multiset(b);
    k :| 0 <= k < |b| && b[k] == a[0];
    RemoveAtMultiset(b, k);
    assert a == [a[0]] + a[1..];
  }

  /** Ids of a permuted roster are a permutation of the roster's ids. */
  lemma {:induction false} IdsPermutation(a: seq<Player>, b: seq<Player>)
    requires multiset(a) == multiset(b)
    ensures multiset(Ids(a)) == multiset(Ids(b))
    decreases |a|
  {
    if |a| == 0 {
      assert |multiset(b)| == 0;
    } else {
      var k := PermutedHead(a, b);
      IdsPermutation(a[1..], b[..k] + b[k + 1..]);
      IdsRemoveAt(b, k);
    }
  }

  /** In a roster with distinct ids, each roster id occurs once. */
  lemma UniqueIdsCount(ps: seq<Player>, i: nat)
    requires UniqueIds(ps) && i < |ps|
    ensures multiset(Ids(ps))[ps[i].id] == 1
  {
    var x := ps[i].id;
    IdsRemoveAt(ps, i);
    IdsAppend(ps[..i], ps[i + 1..]);
    var a, b := Ids(ps[..i]), Ids(ps[i + 1..]);
    assert x !in a;
    assert x !in b;
    assert multiset(a + b) == multiset(a) + multiset(b);
    assert multiset(a)[x] == 0 && multiset(b)[x] == 0;
  }

  /** Two equal elements at different positions make two copies. */
  lemma TwoCopies<T>(s: seq<T>, i: nat, j: nat)
    requires i < j < |s| && s[i] == s[j]
    ensures multiset(s)[s[i]] >= 2
  {
    assert s == s[..i] + [s[i]] + s[i + 1..j] + [s[j]] + s[j + 1..];
  }

  /** Reordering a roster keeps its ids distinct. */
  lemma UniqueIdsPermuted(a: seq<Player>, b: seq<Player>)
    requires multiset(a) == multiset(b) && UniqueIds(a)
    ensures UniqueIds(b)
  {
    IdsPermutation(a, b);
    forall i, j | 0 <= i < j < |b|
      ensures b[i].id != b[j].id
    {
      if b[i].id == b[j].id {
        TwoCopies(Ids(b), i, j);
        assert b[i].id in multiset(Ids(a));
        var k :| 0 <= k < |a| && Ids(a)[k] == b[i].id;
        UniqueIdsCount(a, k);
        assert false;
      }
    }
  }

  // ---------- scores ----------

  /** What match `m` contributes to the player with id `id`. */
  function MatchCredit(m: Match, id: string): int {
    (if m.id1 == id then m.score1 else 0) + (if m.id2 == id then m.score2 else 0)
  }

  function MatchesScore(ms: seq<Match>, id: string): int {
    if |ms| == 0 then 0 else MatchesScore(ms[..|ms| - 1], id) + MatchCredit(ms[|ms| - 1], id)
  }

  /** The sum of every score recorded for `id` over all matches of all rounds. */
  function TotalScore(rs: seq<Round>, id: string): int {
    if |rs| == 0 then 0 else TotalScore(rs[..|rs| - 1], id) + MatchesScore(rs[|rs| - 1].matches, id)
  }

  /** Adds `s` to the points of every roster entry whose id is `id`; nothing else changes. */
  function Credit(ps: seq<Player>, id: string, s: int): (r: seq<Player>)
    ensures |r| == |ps|
    ensures forall i :: 0 <= i < |ps| ==>
      r[i] == ps[i].(points := ps[i].points + (if ps[i].id == id then s else 0))
  {
    seq(|ps|, i requires 0 <= i < |ps| => ps[i].(points := ps[i].points + (if ps[i].id == id then s else 0)))
  }

  /** No score has been recorded in any of the matches. */
  predicate Unscored(ms: seq<Match>) {
    forall i :: 0 <= i < |ms| ==> ms[i].score1 == 0 && ms[i].score2 == 0
  }

  /** Two rosters list the same players in the same order, points aside. */
  predicate SameRoster(a: seq<Player>, b: seq<Player>) {
    |a| == |b| && forall i :: 0 <= i < |a| ==> a[i].(points := 0) == b[i].(points := 0)
  }
}
