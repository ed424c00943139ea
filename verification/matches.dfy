/** models/match.py: one pairing of two players, with the scores once recorded. */
module Matches {
  import opened Wrappers

  /**
   * Players are referred to by national id. Scores are half-points
   * (a win is 2, a draw 1, a loss 0), so the source's 1.0 / 0.5 / 0.0 are exact.
   */
  datatype Match = Match(id1: string, id2: string, score1: int, score2: int)

  /** The stored form: `((id1, score1), (id2, score2))`. */
  type SerialMatch = ((string, int), (string, int))

  const Win: int := 2
  const Draw: int := 1
  const Loss: int := 0

  /** One of the three results a game can have, as half-points. */
  predicate IsResult(s1: int, s2: int) {
    (s1 == Win && s2 == Loss) || (s1 == Loss && s2 == Win) || (s1 == Draw && s2 == Draw)
  }

  /** A result as half-points for the first and the second player. */
  type ResultPair = p: (int, int) | IsResult(p.0, p.1) witness (Win, Loss)

  /** An answer that carries a result. */
  predicate Given(a: Option<ResultPair>) {
    a.Some?
  }

  /** `Match(player1, player2)` with the default scores. */
  function NewMatch(id1: string, id2: string): (m: Match)
    ensures m.id1 == id1 && m.id2 == id2
    ensures m.score1 == 0 && m.score2 == 0
  {
    Match(id1, id2, 0, 0)
  }

  /** `Match.serialize` */
  function Serialize(m: Match): (s: SerialMatch)
    ensures Deserialize(s) == m
  {
    ((m.id1, m.score1), (m.id2, m.score2))
  }

  /** How `Tournament.load` rebuilds a match from its stored form. */
  function Deserialize(r: SerialMatch): (m: Match)
    ensures (m.id1, m.score1) == r.0 && (m.id2, m.score2) == r.1
  {
    Match(r.0.0, r.1.0, r.0.1, r.1.1)
  }

  /** Storing then rebuilding a match gives back the same ids in the same order and the same scores. */
  lemma SerializeRoundTrip(m: Match)
    ensures Deserialize(Serialize(m)) == m
    ensures Serialize(m).0 == (m.id1, m.score1) && Serialize(m).1 == (m.id2, m.score2)
  {
  }

  /** Every stored form is the serialisation of the match rebuilt from it. */
  lemma DeserializeRoundTrip(r: SerialMatch)
    ensures Serialize(Deserialize(r)) == r
  {
  }

  // ---------- answers typed at a prompt ----------

  /** The results among the answers, in the order they were typed; the others are asked again. */
  function GivenInOrder(answers: seq<Option<ResultPair>>): (r: seq<ResultPair>)
    ensures |r| <= |answers|
  {
    if |answers| == 0 then []
    else (if answers[0].Some? then [answers[0].value] else []) + GivenInOrder(answers[1..])
  }

  /** The first answer carrying a result is the first result given; the rest follow it. */
  lemma {:induction false} GivenFirst(answers: seq<Option<ResultPair>>, k: nat)
    requires k < |answers| && answers[k].Some?
    requires forall j :: 0 <= j < k ==> answers[j].None?
    ensures GivenInOrder(answers) == [answers[k].value] + GivenInOrder(answers[k + 1..])
  {
    if k > 0 {
      GivenFirst(answers[1..], k - 1);
      assert answers[1..][k..] == answers[k + 1..];
    }
  }

  /** Answers none of which carries a result give no result. */
  lemma {:induction false} GivenNone(answers: seq<Option<ResultPair>>)
    requires forall j :: 0 <= j < |answers| ==> answers[j].None?
    ensures GivenInOrder(answers) == []
  {
    if |answers| > 0 {
      GivenNone(answers[1..]);
    }
  }
}
