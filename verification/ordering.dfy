/**
 * The ordering pass of models/tournament.py (`Tournament._pair_players`, lines 56-81):
 * a full shuffle before the first round, and afterwards a stable sort by points,
 * highest first, with each run of equal points shuffled in place. The shuffles are
 * random in the source; here the resulting order is a parameter constrained by
 * `ShuffleOutcome`.
 */
module Ordering {
  import opened Domain
  import Sorting

  /** The order `players.sort(key=lambda p: p.points, reverse=True)` produces. */
  predicate PointsFirst(a: Player, b: Player) {
    a.points >= b.points
  }

  lemma PointsFirstTotalPreorder()
    ensures Sorting.TotalPreorder(PointsFirst)
  {
  }

  /** The stable sort by points, highest first. */
  function SortByPoints(ps: seq<Player>): (r: seq<Player>)
    ensures multiset(r) == multiset(ps) && |r| == |ps|
  {
    Sorting.SortBy(ps, PointsFirst)
  }

  /**
   * The orders the ordering pass can leave the roster in. Before the first round it is
   * any shuffle of the roster; later it is a shuffle that keeps, position by position,
   * the points of the stable sort by points, so only players with equal points swap.
   */
  predicate ShuffleOutcome(players: seq<Player>, firstRound: bool, order: seq<Player>) {
    && |order| == |players|
    && multiset(order) == multiset(players)
    && (!firstRound ==> forall i :: 0 <= i < |order| ==> order[i].points == SortByPoints(players)[i].points)
  }

  /** Without any shuffle the pass is possible: the unshuffled roster, and the plain sort. */
  lemma UnshuffledIsOutcome(players: seq<Player>)
    ensures ShuffleOutcome(players, true, players)
    ensures ShuffleOutcome(players, false, SortByPoints(players))
  {
  }

  /** After the first round the order is non-increasing in points. */
  lemma OutcomeNonIncreasing(players: seq<Player>, order: seq<Player>)
    requires ShuffleOutcome(players, false, order)
    ensures forall i, j :: 0 <= i < j < |order| ==> order[i].points >= order[j].points
  {
    PointsFirstTotalPreorder();
    Sorting.SortBySorted(players, PointsFirst);
    var s := SortByPoints(players);
    forall i, j | 0 <= i < j < |order|
      ensures order[i].points >= order[j].points
    {
      assert PointsFirst(s[i], s[j]);
    }
  }

  /** A permutation of players who all have `v` points also has only players with `v` points. */
  lemma PermutationKeepsPoints(window: seq<Player>, mid: seq<Player>, v: int)
    requires multiset(window) == multiset(mid)
    requires forall k :: 0 <= k < |mid| ==> mid[k].points == v
    ensures forall k :: 0 <= k < |window| ==> window[k].points == v
  {
    forall k | 0 <= k < |window|
      ensures window[k].points == v
    {
      assert window[k] in multiset(mid);
    }
  }

  /** Replacing a window of equal-points players by a permutation of it keeps the points at every position. */
  lemma SpliceKeepsPoints(order: seq<Player>, i: nat, j: nat, window: seq<Player>)
    requires i <= j <= |order|
    requires forall k :: i <= k < j ==> order[k].points == order[i].points
    requires multiset(window) == multiset(order[i..j])
    ensures |order[..i] + window + order[j..]| == |order|
    ensures forall k :: 0 <= k < |order| ==> (order[..i] + window + order[j..])[k].points == order[k].points
  {
    var r := order[..i] + window + order[j..];
    assert |window| == j - i by {
      assert |multiset(window)| == |multiset(order[i..j])|;
    }
    if i < j {
      PermutationKeepsPoints(window, order[i..j], order[i].points);
    }
    forall k | 0 <= k < |r|
      ensures r[k].points == order[k].points
    {
      if k < i {
        assert r[k] == order[k];
      } else if k < j {
        assert r[k] == window[k - i];
      } else {
        assert r[k] == order[k];
      }
    }
  }

  /** Replacing a window by a permutation of it permutes the whole order. */
  lemma SplicePermutes(order: seq<Player>, i: nat, j: nat, window: seq<Player>)
    requires i <= j <= |order|
    requires multiset(window) == multiset(order[i..j])
    ensures multiset(order[..i] + window + order[j..]) == multiset(order)
  {
    assert order == order[..i] + order[i..j] + order[j..];
  }

  /**
   * Shuffling any window of equal-points players (the source shuffles each maximal
   * one in turn) stays among the possible outcomes.
   */
  lemma ShuffleWindowKeepsOutcome(players: seq<Player>, order: seq<Player>, i: nat, j: nat, window: seq<Player>)
    requires ShuffleOutcome(players, false, order)
    requires i <= j <= |order|
    requires forall k :: i <= k < j ==> order[k].points == order[i].points
    requires multiset(window) == multiset(order[i..j])
    ensures ShuffleOutcome(players, false, order[..i] + window + order[j..])
  {
    SpliceKeepsPoints(order, i, j, window);
    SplicePermutes(order, i, j, window);
  }

  /** In a window with points `v` flanked by other points, the window holds every player with `v`. */
  lemma WindowCount(s: seq<Player>, i: nat, j: nat, v: int, x: Player)
    requires i <= j <= |s|
    requires forall k :: 0 <= k < i ==> s[k].points != v
    requires forall k :: i <= k < j ==> s[k].points == v
    requires forall k :: j <= k < |s| ==> s[k].points != v
    ensures multiset(s[i..j])[x] == if x.points == v then multiset(s)[x] else 0
  {
    var a, b, c := s[..i], s[i..j], s[j..];
    assert s == a + b + c;
    assert multiset(s) == multiset(a) + multiset(b) + multiset(c);
    if x.points == v {
      assert x !in a && x !in c;
      assert multiset(a)[x] == 0 && multiset(c)[x] == 0;
    } else {
      assert x !in b;
      assert multiset(b)[x] == 0;
    }
  }

  /** In an order non-increasing in points, a run of `v` that is maximal is the only place `v` occurs. */
  lemma MaximalRun(s: seq<Player>, i: nat, j: nat, v: int)
    requires i < j <= |s|
    requires forall a, b :: 0 <= a < b < |s| ==> s[a].points >= s[b].points
    requires forall k :: i <= k < j ==> s[k].points == v
    requires i > 0 ==> s[i - 1].points != v
    requires j < |s| ==> s[j].points != v
    ensures forall k :: 0 <= k < i ==> s[k].points > v
    ensures forall k :: j <= k < |s| ==> s[k].points < v
  {
    forall k | 0 <= k < i
      ensures s[k].points > v
    {
      assert s[k].points >= s[i - 1].points >= s[i].points;
    }
    forall k | j <= k < |s|
      ensures s[k].points < v
    {
      assert s[j - 1].points >= s[j].points >= s[k].points;
    }
  }

  lemma SameCounts<T>(a: multiset<T>, b: multiset<T>)
    requires forall x :: a[x] == b[x]
    ensures a == b
  {
  }

  /** How many copies of `x` a maximal run of `v` holds in an order non-increasing in points. */
  lemma RunCount(s: seq<Player>, i: nat, j: nat, v: int, x: Player)
    requires i < j <= |s|
    requires forall a, b :: 0 <= a < b < |s| ==> s[a].points >= s[b].points
    requires forall k :: i <= k < j ==> s[k].points == v
    requires i > 0 ==> s[i - 1].points != v
    requires j < |s| ==> s[j].points != v
    ensures multiset(s[i..j])[x] == if x.points == v then multiset(s)[x] else 0
  {
    MaximalRun(s, i, j, v);
    WindowCount(s, i, j, v, x);
  }

  /**
   * Each maximal run of equal points in a later-round order is a permutation of the
   * same positions of the plain sort: the pass only shuffles inside runs.
   */
  lemma RunIsPermuted(players: seq<Player>, order: seq<Player>, i: nat, j: nat)
    requires ShuffleOutcome(players, false, order)
    requires i < j <= |order|
    requires forall k :: i <= k < j ==> order[k].points == order[i].points
    requires i > 0 ==> order[i - 1].points != order[i].points
    requires j < |order| ==> order[j].points != order[i].points
    ensures multiset(order[i..j]) == multiset(SortByPoints(players)[i..j])
  {
    var s := SortByPoints(players);
    var v := order[i].points;
    OutcomeNonIncreasing(players, order);
    UnshuffledIsOutcome(players);
    OutcomeNonIncreasing(players, s);
    assert forall k :: i <= k < j ==> s[k].points == v;
    assert i > 0 ==> s[i - 1].points != v;
    assert j < |s| ==> s[j].points != v;
    forall x
      ensures multiset(order[i..j])[x] == multiset(s[i..j])[x]
    {
      RunCount(order, i, j, v, x);
      RunCount(s, i, j, v, x);
    }
    SameCounts(multiset(order[i..j]), multiset(s[i..j]));
  }
}
