/**
 * Editing a tournament's roster before it starts (controllers/tournament_players.py,
 * and the same steps in controllers/tournament_controller.py), picking a tournament
 * from a numbered list (`_choose` in controllers/tournament_controller_base.py), and
 * replacing a player's roster entries after the player is edited
 * (`update_player_references`).
 */
module Roster {
  import opened Wrappers
  import opened Domain
  import Text
  import Sorting
  import Guards

  // ---------- distinct elements ----------

  predicate Distinct<T(==)>(s: seq<T>) {
    forall i, j :: 0 <= i < j < |s| ==> s[i] != s[j]
  }

  /** In a sequence without repeats every element occurs at most once. */
  lemma {:induction false} DistinctCount<T>(s: seq<T>, x: T)
    requires Distinct(s)
    ensures multiset(s)[x] <= 1
  {
    if |s| > 0 {
      DistinctCount(s[1..], x);
      assert s == [s[0]] + s[1..];
      if s[0] == x {
        assert x !in s[1..];
      }
    }
  }

  /** Reordering keeps a sequence free of repeats. */
  lemma DistinctPermuted<T>(a: seq<T>, b: seq<T>)
    requires multiset(a) == multiset(b) && Distinct(a)
    ensures Distinct(b)
  {
    forall i, j | 0 <= i < j < |b|
      ensures b[i] != b[j]
    {
      if b[i] == b[j] {
        TwoCopies(b, i, j);
        DistinctCount(a, b[i]);
      }
    }
  }

  // ---------- name order ----------

  /** The sort key `(last_name, first_name)`: `a` may come before `b`. */
  predicate NameLe(a: Player, b: Player) {
    Text.StrLt(a.lastName, b.lastName) || (a.lastName == b.lastName && Text.StrLe(a.firstName, b.firstName))
  }

  lemma NameLeTotalPreorder()
    ensures Sorting.TotalPreorder(NameLe)
  {
    forall a: Player, b: Player
      ensures NameLe(a, b) || NameLe(b, a)
    {
      Text.StrLeTotal(a.firstName, b.firstName);
      if Text.StrLe(a.lastName, b.lastName) && Text.StrLe(b.lastName, a.lastName) {
        Text.StrLeAntisym(a.lastName, b.lastName);
      }
    }
    forall a: Player, b: Player, c: Player | NameLe(a, b) && NameLe(b, c)
      ensures NameLe(a, c)
    {
      NameLeTrans(a, b, c);
    }
  }

  lemma NameLeTrans(a: Player, b: Player, c: Player)
    requires NameLe(a, b) && NameLe(b, c)
    ensures NameLe(a, c)
  {
    if a.lastName == b.lastName == c.lastName {
      Text.StrLeRefl(a.lastName);
      Text.StrLeTrans(a.firstName, b.firstName, c.firstName);
    } else if Text.StrLe(c.lastName, a.lastName) {
      Text.StrLeTotal(a.lastName, b.lastName);
      Text.StrLeTotal(b.lastName, c.lastName);
      if a.lastName == b.lastName {
        assert false;
      } else if b.lastName == c.lastName {
        assert false;
      } else {
        Text.StrLeTrans(c.lastName, a.lastName, b.lastName);
        assert false;
      }
    }
  }

  /** `sorted(players, key=lambda p: (p.last_name, p.first_name))`, also `players.sort(...)`. */
  function ByName(ps: seq<Player>): (r: seq<Player>)
    ensures |r| == |ps| && multiset(r) == multiset(ps)
    ensures Sorting.Sorted(NameLe, r)
  {
    NameLeTotalPreorder();
    Sorting.SortBySorted(ps, NameLe);
    Sorting.SortBy(ps, NameLe)
  }

  // ---------- choosing a tournament ----------

  /** The listing order of `_choose`: by lower-cased name. */
  predicate LowerNameLe(a: Tournament, b: Tournament) {
    Text.StrLe(Text.Lower(a.name), Text.Lower(b.name))
  }

  lemma LowerNameLeTotalPreorder()
    ensures Sorting.TotalPreorder(LowerNameLe)
  {
    forall a: Tournament, b: Tournament
      ensures LowerNameLe(a, b) || LowerNameLe(b, a)
    {
      Text.StrLeTotal(Text.Lower(a.name), Text.Lower(b.name));
    }
    forall a: Tournament, b: Tournament, c: Tournament | LowerNameLe(a, b) && LowerNameLe(b, c)
      ensures LowerNameLe(a, c)
    {
      Text.StrLeTrans(Text.Lower(a.name), Text.Lower(b.name), Text.Lower(c.name));
    }
  }

  /** The tournaments as `_choose` numbers them, from 1. */
  function Listing(ts: seq<Tournament>): (r: seq<Tournament>)
    ensures |r| == |ts| && multiset(r) == multiset(ts)
    ensures Sorting.Sorted(LowerNameLe, r)
  {
    LowerNameLeTotalPreorder();
    Sorting.SortBySorted(ts, LowerNameLe);
    Sorting.SortBy(ts, LowerNameLe)
  }

  /** The number typed: `int(answer.strip())` when the stripped answer is all digits. */
  function Number(answer: string): Option<nat> {
    var s := Text.Strip(answer);
    if Text.IsDigits(s) then Some(Text.DigitsValue(s)) else None
  }

  /**
   * `_choose`: nothing from an empty list, a non-number or a number out of range;
   * otherwise the tournament listed under that number.
   */
  function Choose(ts: seq<Tournament>, answer: string): (r: Option<Tournament>)
    ensures r.Some? <==> Number(answer).Some? && 1 <= Number(answer).value <= |ts|
    ensures r.Some? ==> r.value in ts
  {
    if |ts| == 0 then None
    else
      match Number(answer)
      case None => None
      case Some(k) =>
        if 1 <= k <= |ts| then
          var l := Listing(ts);
          assert l[k - 1] in multiset(l);
          Some(l[k - 1])
        else None
  }

  /** Numbers follow the listing: a smaller number never picks a name that sorts later. */
  lemma ChooseFollowsListing(ts: seq<Tournament>, a: string, b: string)
    requires Choose(ts, a).Some? && Choose(ts, b).Some?
    requires Number(a).value <= Number(b).value
    ensures Text.StrLe(Text.Lower(Choose(ts, a).value.name), Text.Lower(Choose(ts, b).value.name))
  {
    var l, i, j := Listing(ts), Number(a).value - 1, Number(b).value - 1;
    ChooseNumber(ts, a);
    ChooseNumber(ts, b);
    if i == j {
      Text.StrLeRefl(Text.Lower(l[i].name));
    } else {
      assert LowerNameLe(l[i], l[j]);
    }
  }

  /** Every listed tournament is reachable: typing its number picks it. */
  lemma ChooseReachesAll(ts: seq<Tournament>, t: Tournament) returns (k: nat)
    requires t in ts
    ensures 1 <= k <= |ts| && Choose(ts, Text.NatToString(k)) == Some(t)
  {
    var j := ListedAt(ts, t);
    k := j + 1;
    NumberOfNatString(k);
    ChooseNumber(ts, Text.NatToString(k));
  }

  lemma ListedAt(ts: seq<Tournament>, t: Tournament) returns (j: nat)
    requires t in ts
    ensures j < |ts| && Listing(ts)[j] == t
  {
    var l := Listing(ts);
    assert t in multiset(l);
    j :| 0 <= j < |l| && l[j] == t;
  }

  lemma ChooseNumber(ts: seq<Tournament>, answer: string)
    requires Number(answer).Some? && 1 <= Number(answer).value <= |ts|
    ensures Choose(ts, answer) == Some(Listing(ts)[Number(answer).value - 1])
  {
  }

  /** Typing the digits of `k` gives the number `k`. */
  lemma NumberOfNatString(k: nat)
    ensures Number(Text.NatToString(k)) == Some(k)
  {
    var s := Text.NatToString(k);
    Text.NatToStringRoundTrip(k);
    assert !Text.IsSpace(s[0]) && !Text.IsSpace(s[|s| - 1]);
    Text.TrimKeepsClean(s, Text.IsSpace);
  }

  /** The tournaments offered for roster editing: those not started, in lower-cased name order. */
  function Editable(ts: seq<Tournament>): (r: seq<Tournament>)
    ensures forall t :: t in r <==> t in ts && t.status == NotStarted
    ensures Sorting.Sorted(LowerNameLe, r)
  {
    var open := Guards.NotStartedOnly(ts);
    OpenMembers(ts);
    var r := Listing(open);
    assert forall t :: t in r <==> t in open by {
      forall t
        ensures t in r <==> t in open
      {
        assert t in r <==> t in multiset(r);
        assert t in open <==> t in multiset(open);
      }
    }
    r
  }

  lemma OpenMembers(ts: seq<Tournament>)
    ensures forall t :: t in Guards.NotStartedOnly(ts) <==> t in ts && t.status == NotStarted
  {
    var open := Guards.NotStartedOnly(ts);
    forall t
      ensures t in open <==> t in ts && t.status == NotStarted
    {
      if t in open {
        var i :| 0 <= i < |open| && open[i] == t;
      }
      if t in ts && t.status == NotStarted {
        var i :| 0 <= i < |ts| && ts[i] == t;
      }
    }
  }

  /** A tournament picked for roster editing has not started. */
  lemma ChosenForEditing(ts: seq<Tournament>, answer: string)
    requires Choose(Editable(ts), answer).Some?
    ensures Choose(Editable(ts), answer).value.status == NotStarted
    ensures Choose(Editable(ts), answer).value in ts
  {
  }

  // ---------- selecting by number ----------

  /** The comma-separated tokens of an answer, each stripped. */
  function Tokens(nums: string): (r: seq<string>)
    ensures |r| == |Text.Split(nums, ',')|
    ensures forall k :: 0 <= k < |r| ==> r[k] == Text.Strip(Text.Split(nums, ',')[k])
  {
    var parts := Text.Split(nums, ',');
    seq(|parts|, k requires 0 <= k < |parts| => Text.Strip(parts[k]))
  }

  /** The list position a token names, `int(token) - 1`, when it is made of digits. */
  function TokenIndex(token: string): Option<int> {
    if Text.IsDigits(token) then Some(Text.DigitsValue(token) - 1) else None
  }

  /** Some token names position `x`. */
  predicate Named(tokens: seq<string>, x: nat) {
    exists j :: 0 <= j < |tokens| && TokenIndex(tokens[j]) == Some(x)
  }

  lemma NamedTail(tokens: seq<string>, x: nat)
    requires |tokens| > 0
    ensures Named(tokens, x) <==> TokenIndex(tokens[0]) == Some(x) || Named(tokens[1..], x)
  {
    if Named(tokens, x) && TokenIndex(tokens[0]) != Some(x) {
      var j :| 0 <= j < |tokens| && TokenIndex(tokens[j]) == Some(x);
      assert tokens[1..][j - 1] == tokens[j];
    }
    if Named(tokens[1..], x) {
      var j :| 0 <= j < |tokens[1..]| && TokenIndex(tokens[1..][j]) == Some(x);
      assert tokens[j + 1] == tokens[1..][j];
    }
  }

  /**
   * The positions the tokens select in a list of `n`, in input order: non-digit tokens
   * and numbers out of range are skipped, and a position already taken is skipped.
   */
  function Select(tokens: seq<string>, n: nat, taken: set<nat>): (r: seq<nat>)
    ensures forall k :: 0 <= k < |r| ==> r[k] < n && r[k] !in taken
    ensures Distinct(r)
    ensures forall x: nat :: x in r <==> x < n && x !in taken && Named(tokens, x)
    decreases |tokens|
  {
    if |tokens| == 0 then []
    else
      var t := TokenIndex(tokens[0]);
      if t.Some? && 0 <= t.value < n && t.value as nat !in taken then
        var i: nat := t.value;
        var rest := Select(tokens[1..], n, taken + {i});
        assert forall x: nat :: Named(tokens, x) <==> TokenIndex(tokens[0]) == Some(x) || Named(tokens[1..], x) by {
          forall x: nat ensures Named(tokens, x) <==> TokenIndex(tokens[0]) == Some(x) || Named(tokens[1..], x) {
            NamedTail(tokens, x);
          }
        }
        [i] + rest
      else
        var rest := Select(tokens[1..], n, taken);
        assert forall x: nat :: Named(tokens, x) <==> TokenIndex(tokens[0]) == Some(x) || Named(tokens[1..], x) by {
          forall x: nat ensures Named(tokens, x) <==> TokenIndex(tokens[0]) == Some(x) || Named(tokens[1..], x) {
            NamedTail(tokens, x);
          }
        }
        rest
  }

  /**
   * The selection loop as the source writes it: a token is skipped when the same text
   * was seen before, so "1" and "01" both select the first position.
   */
  function SelectAsWritten(tokens: seq<string>, n: nat, seen: set<string>): (r: seq<nat>)
    ensures forall k :: 0 <= k < |r| ==> r[k] < n
    decreases |tokens|
  {
    if |tokens| == 0 then []
    else if !Text.IsDigits(tokens[0]) || tokens[0] in seen then SelectAsWritten(tokens[1..], n, seen)
    else
      var rest := SelectAsWritten(tokens[1..], n, seen + {tokens[0]});
      var i := Text.DigitsValue(tokens[0]) - 1;
      if 0 <= i < n then [i] + rest else rest
  }

  lemma OneValue()
    ensures Text.DigitsValue("1") == 1 && Text.DigitsValue("01") == 1
  {
    assert "1"[..0] == "";
    assert "01"[..1] == "0";
    assert "0"[..0] == "";
  }

  lemma TokensOf(s: string, a: string, b: string)
    requires s == a + "," + b && ',' !in a && ',' !in b
    requires |a| > 0 && !Text.IsSpace(a[0]) && !Text.IsSpace(a[|a| - 1])
    requires |b| > 0 && !Text.IsSpace(b[0]) && !Text.IsSpace(b[|b| - 1])
    ensures Tokens(s) == [a, b]
  {
    Text.SplitTwo(a, b, ',');
    Text.TrimKeepsClean(a, Text.IsSpace);
    Text.TrimKeepsClean(b, Text.IsSpace);
  }

  /** The answer "1,01" selects the first available player twice as written, once when positions are compared. */
  lemma LeadingZeroSelectsTwice(n: nat)
    requires n >= 1
    ensures SelectAsWritten(Tokens("1,01"), n, {}) == [0, 0]
    ensures Select(Tokens("1,01"), n, {}) == [0]
  {
    TokensOf("1,01", "1", "01");
    AsWrittenTwice(n);
    DedupOnce(n);
  }

  lemma AsWrittenTwice(n: nat)
    requires n >= 1
    ensures SelectAsWritten(["1", "01"], n, {}) == [0, 0]
  {
    OneValue();
    AsWrittenTail(n);
    assert ["1", "01"][1..] == ["01"];
  }

  lemma DedupOnce(n: nat)
    requires n >= 1
    ensures Select(["1", "01"], n, {}) == [0]
  {
    OneValue();
    DedupTail(n);
    assert ["1", "01"][1..] == ["01"];
  }

  lemma AsWrittenTail(n: nat)
    requires n >= 1
    ensures SelectAsWritten(["01"], n, {"1"}) == [0]
  {
    OneValue();
    assert ["01"][1..] == [];
    assert "01" != "1";
  }

  lemma DedupTail(n: nat)
    requires n >= 1
    ensures Select(["01"], n, {0}) == []
  {
    OneValue();
    assert ["01"][1..] == [];
  }

  /** The players at the selected positions. */
  function Picks(ps: seq<Player>, idx: seq<nat>): (r: seq<Player>)
    requires forall k :: 0 <= k < |idx| ==> idx[k] < |ps|
    ensures |r| == |idx| && forall k :: 0 <= k < |idx| ==> r[k] == ps[idx[k]]
  {
    seq(|idx|, k requires 0 <= k < |idx| => ps[idx[k]])
  }

  lemma PicksDistinct(ps: seq<Player>, idx: seq<nat>)
    requires forall k :: 0 <= k < |idx| ==> idx[k] < |ps|
    requires Distinct(ps) && Distinct(idx)
    ensures Distinct(Picks(ps, idx))
  {
  }

  // ---------- adding players ----------

  /** `[x for x in s if x not in excluded]`, with Python's value equality. */
  function Without<T(==, !new)>(s: seq<T>, excluded: seq<T>): (r: seq<T>)
    ensures forall x :: x in r <==> x in s && x !in excluded
    ensures |r| <= |s|
  {
    if |s| == 0 then []
    else if s[0] in excluded then Without(s[1..], excluded)
    else [s[0]] + Without(s[1..], excluded)
  }

  /** Dropping elements keeps both the order and the absence of repeats. */
  lemma {:induction false} WithoutKeeps<T(!new)>(s: seq<T>, excluded: seq<T>, le: (T, T) -> bool)
    ensures Sorting.Sorted(le, s) ==> Sorting.Sorted(le, Without(s, excluded))
    ensures Distinct(s) ==> Distinct(Without(s, excluded))
  {
    if |s| > 0 {
      WithoutKeeps(s[1..], excluded, le);
      var rest := Without(s[1..], excluded);
      if s[0] !in excluded {
        var r := [s[0]] + rest;
        assert forall j :: 0 < j < |r| ==> r[j] == rest[j - 1] && rest[j - 1] in s[1..];
        if Sorting.Sorted(le, s) {
          forall j | 0 < j < |r|
            ensures le(r[0], r[j])
          {
            var m :| 0 <= m < |s[1..]| && s[1..][m] == r[j];
            assert s[m + 1] == r[j];
          }
        }
      }
    }
  }

  /** `_available_players`: the registry in name order, without those already on the roster. */
  function Available(registry: seq<Player>, roster: seq<Player>): (r: seq<Player>)
    ensures forall p :: p in r <==> p in registry && p !in roster
    ensures Sorting.Sorted(NameLe, r)
    ensures Distinct(registry) ==> Distinct(r)
  {
    var all := ByName(registry);
    WithoutKeeps(all, roster, NameLe);
    assert forall p :: p in registry <==> p in multiset(all);
    assert Distinct(registry) ==> Distinct(all) by {
      if Distinct(registry) {
        DistinctPermuted(registry, all);
      }
    }
    Without(all, roster)
  }

  /** A roster edit: the list it leaves, the players it added or removed, and what it raised. */
  datatype Edited = Edited(players: seq<Player>, changed: seq<Player>, raised: Option<Error>)

  /** The roster edit is written to disk exactly when it completed and changed someone. */
  predicate Saved(e: Edited) {
    e.raised.None? && |e.changed| > 0
  }

  /**
   * `_add_players`: the numbers typed select from the available players; the selected
   * players are appended, and the roster is re-sorted by name when anyone was added.
   */
  function AddPlayers(roster: seq<Player>, registry: seq<Player>, nums: string): (r: Edited)
    ensures r.raised.None?
    ensures multiset(r.players) == multiset(roster) + multiset(r.changed)
    ensures forall k :: 0 <= k < |r.changed| ==> r.changed[k] in registry && r.changed[k] !in roster
    ensures |r.changed| > 0 ==> Sorting.Sorted(NameLe, r.players)
    ensures |r.changed| == 0 ==> r.players == roster
  {
    var available := Available(registry, roster);
    if |available| == 0 then Edited(roster, [], None)
    else
      var added := Picks(available, Select(Tokens(nums), |available|, {}));
      if |added| == 0 then Edited(roster, [], None)
      else
        Merged(roster, added);
        PicksAvailable(registry, roster, added);
        Edited(ByName(roster + added), added, None)
  }

  /** Sorting the roster with the new players appended keeps exactly those players. */
  lemma Merged(roster: seq<Player>, added: seq<Player>)
    ensures multiset(ByName(roster + added)) == multiset(roster) + multiset(added)
    ensures Sorting.Sorted(NameLe, ByName(roster + added))
  {
  }

  lemma PicksAvailable(registry: seq<Player>, roster: seq<Player>, added: seq<Player>)
    requires forall k :: 0 <= k < |added| ==> added[k] in Available(registry, roster)
    ensures forall k :: 0 <= k < |added| ==> added[k] in registry && added[k] !in roster
  {
  }

  /** The players a number selects for adding: the available player listed under it. */
  lemma AddPicksListed(roster: seq<Player>, registry: seq<Player>, nums: string, x: nat)
    ensures var available := Available(registry, roster);
      x < |available| && Named(Tokens(nums), x) ==> available[x] in AddPlayers(roster, registry, nums).changed
    ensures var available := Available(registry, roster);
      forall p :: p in AddPlayers(roster, registry, nums).changed ==>
        exists y: nat :: y < |available| && Named(Tokens(nums), y) && available[y] == p
  {
    var available := Available(registry, roster);
    if |available| > 0 {
      var idx := Select(Tokens(nums), |available|, {});
      var changed := AddPlayers(roster, registry, nums).changed;
      assert changed == Picks(available, idx);
      if x < |available| && Named(Tokens(nums), x) {
        PicksNamed(available, idx, x);
      }
      forall p | p in changed
        ensures exists y: nat :: y < |available| && Named(Tokens(nums), y) && available[y] == p
      {
        NamedPicks(available, idx, p, Tokens(nums));
      }
    }
  }

  lemma PicksNamed(ps: seq<Player>, idx: seq<nat>, x: nat)
    requires forall k :: 0 <= k < |idx| ==> idx[k] < |ps|
    requires x in idx
    ensures x < |ps| && ps[x] in Picks(ps, idx)
  {
    var k :| 0 <= k < |idx| && idx[k] == x;
    assert Picks(ps, idx)[k] == ps[x];
  }

  lemma NamedPicks(ps: seq<Player>, idx: seq<nat>, p: Player, tokens: seq<string>)
    requires forall k :: 0 <= k < |idx| ==> idx[k] < |ps|
    requires forall y: nat :: y in idx <==> y < |ps| && y !in {} && Named(tokens, y)
    requires p in Picks(ps, idx)
    ensures exists y: nat :: y < |ps| && Named(tokens, y) && ps[y] == p
  {
    var k :| 0 <= k < |idx| && Picks(ps, idx)[k] == p;
    assert idx[k] in idx;
  }

  /**
   * Adding never puts a player on the roster twice: a roster and a registry without
   * repeats give a roster without repeats.
   */
  lemma AddKeepsDistinct(roster: seq<Player>, registry: seq<Player>, nums: string)
    requires Distinct(roster) && Distinct(registry)
    ensures Distinct(AddPlayers(roster, registry, nums).players)
  {
    var available := Available(registry, roster);
    if |available| > 0 {
      var idx := Select(Tokens(nums), |available|, {});
      var added := Picks(available, idx);
      PicksDistinct(available, idx);
      if |added| > 0 {
        var joined := roster + added;
        forall i, j | 0 <= i < j < |joined|
          ensures joined[i] != joined[j]
        {
          if i < |roster| && j >= |roster| {
            assert joined[j] == added[j - |roster|];
            assert joined[j] !in roster;
          } else if i >= |roster| {
            assert joined[i] == added[i - |roster|] && joined[j] == added[j - |roster|];
          }
        }
        DistinctPermuted(joined, ByName(joined));
      }
    }
  }

  // ---------- removing players ----------

  /** `list.remove(x)`: drops the first element equal to `x`. */
  function RemoveFirst<T(==)>(s: seq<T>, x: T): (r: seq<T>)
    requires x in s
    ensures |r| == |s| - 1
    ensures multiset(r) == multiset(s) - multiset{x}
  {
    if s[0] == x then
      assert s == [s[0]] + s[1..];
      s[1..]
    else
      assert s == [s[0]] + s[1..];
      [s[0]] + RemoveFirst(s[1..], x)
  }

  /** `answer.lower() == "o"`: the removal is confirmed. */
  predicate Confirms(answer: string) {
    Text.Lower(answer) == "o"
  }

  /** The picks whose answers confirm them, in order. */
  function ConfirmedPicks(picks: seq<Player>, answers: seq<string>): seq<Player>
    requires |answers| >= |picks|
  {
    if |picks| == 0 then []
    else (if Confirms(answers[0]) then [picks[0]] else []) + ConfirmedPicks(picks[1..], answers[1..])
  }

  /**
   * `_confirm_and_remove_players`: one answer per pick, removing the pick when
   * confirmed. Running out of answers is an EOFError; a confirmed pick no longer on
   * the roster makes `list.remove` raise ValueError.
   */
  function Confirm(roster: seq<Player>, picks: seq<Player>, answers: seq<string>): (r: Edited)
    ensures multiset(r.players) + multiset(r.changed) == multiset(roster)
    ensures r.raised.None? || r.raised == Some(EndOfInput) || r.raised == Some(NotInList)
    ensures r.raised.None? <==> |answers| >= |picks| && r.raised != Some(NotInList)
    ensures r.raised.None? ==> r.changed == ConfirmedPicks(picks, answers)
    decreases |picks|
  {
    if |picks| == 0 then Edited(roster, [], None)
    else if |answers| == 0 then Edited(roster, [], Some(EndOfInput))
    else if !Confirms(answers[0]) then Confirm(roster, picks[1..], answers[1..])
    else if picks[0] !in roster then Edited(roster, [], Some(NotInList))
    else
      var smaller := RemoveFirst(roster, picks[0]);
      var rest := Confirm(smaller, picks[1..], answers[1..]);
      RemovedCounted(roster, picks[0], rest.players, rest.changed);
      assert |answers[1..]| >= |picks[1..]| <==> |answers| >= |picks|;
      assert rest.raised.None? ==> rest.changed == ConfirmedPicks(picks[1..], answers[1..]);
      Edited(rest.players, [picks[0]] + rest.changed, rest.raised)
  }

  /** What is left of `s` without `x`, together with `x`, is `s` again. */
  lemma RemovedCounted<T>(s: seq<T>, x: T, kept: seq<T>, gone: seq<T>)
    requires x in s && multiset(kept) + multiset(gone) == multiset(RemoveFirst(s, x))
    ensures multiset(kept) + multiset([x] + gone) == multiset(s)
  {
    assert x in multiset(s);
    assert (multiset(s) - multiset{x}) + multiset{x} == multiset(s);
    assert multiset([x] + gone) == multiset{x} + multiset(gone);
  }

  /** Picks that are all on the roster, none twice, are always found by `list.remove`. */
  lemma {:induction false} ConfirmDistinctFound(roster: seq<Player>, picks: seq<Player>, answers: seq<string>)
    requires Distinct(picks) && forall k :: 0 <= k < |picks| ==> picks[k] in roster
    ensures Confirm(roster, picks, answers).raised != Some(NotInList)
    decreases |picks|
  {
    if |picks| > 0 && |answers| > 0 {
      var rest := picks[1..];
      assert Distinct(rest);
      if !Confirms(answers[0]) {
        ConfirmDistinctFound(roster, rest, answers[1..]);
      } else {
        var roster' := RemoveFirst(roster, picks[0]);
        forall k | 0 <= k < |rest|
          ensures rest[k] in roster'
        {
          assert rest[k] == picks[k + 1] && rest[k] != picks[0];
          assert rest[k] in multiset(roster);
          assert multiset(roster')[rest[k]] == multiset(roster)[rest[k]];
        }
        ConfirmDistinctFound(roster', rest, answers[1..]);
      }
    }
  }

  /** `_ask_players_to_remove` as written: every digit token in range is a pick, repeats included. */
  function RemovalPicksAsWritten(tokens: seq<string>, n: nat): (r: seq<nat>)
    ensures forall k :: 0 <= k < |r| ==> r[k] < n
    ensures forall x: nat :: x in r <==> x < n && Named(tokens, x)
    decreases |tokens|
  {
    if |tokens| == 0 then []
    else
      var t := TokenIndex(tokens[0]);
      var rest := RemovalPicksAsWritten(tokens[1..], n);
      assert forall x: nat :: Named(tokens, x) <==> TokenIndex(tokens[0]) == Some(x) || Named(tokens[1..], x) by {
        forall x: nat ensures Named(tokens, x) <==> TokenIndex(tokens[0]) == Some(x) || Named(tokens[1..], x) {
          NamedTail(tokens, x);
        }
      }
      if t.Some? && 0 <= t.value < n then [t.value as nat] + rest else rest
  }

  /** `_remove_players` as written: the roster is sorted by name, and repeated numbers stay repeated. */
  function RemovePlayersAsWritten(roster: seq<Player>, nums: string, answers: seq<string>): (r: Edited)
    ensures multiset(r.players) + multiset(r.changed) == multiset(roster)
  {
    if |roster| == 0 then Edited(roster, [], None)
    else
      var sorted := ByName(roster);
      var picks := Picks(sorted, RemovalPicksAsWritten(Tokens(nums), |sorted|));
      if |picks| == 0 then Edited(sorted, [], None)
      else
        var c := Confirm(sorted, picks, answers);
        if Saved(c) then c.(players := ByName(c.players)) else c
  }

  /** Typing a number twice and confirming both removals makes the second `list.remove` fail. */
  lemma RepeatedNumberRaises(p: Player)
    ensures RemovePlayersAsWritten([p], "1,1", ["o", "o"]).raised == Some(NotInList)
  {
    RepeatedPicks();
    SortOne(p);
    RemoveTwice(p);
    assert Picks([p], [0, 0]) == [p, p];
  }

  lemma RepeatedPicks()
    ensures RemovalPicksAsWritten(Tokens("1,1"), 1) == [0, 0]
  {
    TokensOf("1,1", "1", "1");
    OneValue();
    assert RemovalPicksAsWritten([], 1) == [];
    assert RemovalPicksAsWritten(["1"], 1) == [0] by {
      assert ["1"][1..] == [];
    }
    assert ["1", "1"][1..] == ["1"];
  }

  lemma SortOne(p: Player)
    ensures ByName([p]) == [p]
  {
    assert multiset(ByName([p])) == multiset{p};
    assert ByName([p])[0] in multiset{p};
  }

  lemma RemoveTwice(p: Player)
    ensures Confirm([p], [p, p], ["o", "o"]).raised == Some(NotInList)
  {
    assert Text.Lower("o") == "o";
    assert RemoveFirst([p], p) == [];
    assert [p, p][1..] == [p];
    assert ["o", "o"][1..] == ["o"];
  }

  /** The players the numbers typed select for removal, from the roster sorted by name. */
  function RemovalPicks(roster: seq<Player>, nums: string): (r: seq<Player>)
    ensures forall p :: p in r ==> p in roster
    ensures |r| == |Select(Tokens(nums), |roster|, {})|
    ensures forall k :: 0 <= k < |r| ==> r[k] == ByName(roster)[Select(Tokens(nums), |roster|, {})[k]]
  {
    var sorted := ByName(roster);
    var picks := Picks(sorted, Select(Tokens(nums), |sorted|, {}));
    assert forall p :: p in picks ==> p in multiset(roster);
    picks
  }

  /** Nothing can be selected from an empty list. */
  lemma {:induction false} SelectFromNone(tokens: seq<string>, taken: set<nat>)
    ensures Select(tokens, 0, taken) == []
    decreases |tokens|
  {
    if |tokens| > 0 {
      SelectFromNone(tokens[1..], taken);
    }
  }

  /** A player leaves the roster iff it was picked and the answer at its place confirms it. */
  lemma {:induction false} ConfirmedPicksIff(picks: seq<Player>, answers: seq<string>, x: Player)
    requires |answers| >= |picks|
    ensures x in ConfirmedPicks(picks, answers) <==> exists k :: 0 <= k < |picks| && picks[k] == x && Confirms(answers[k])
    decreases |picks|
  {
    if |picks| > 0 {
      ConfirmedPicksIff(picks[1..], answers[1..], x);
      if x in ConfirmedPicks(picks[1..], answers[1..]) {
        var k :| 0 <= k < |picks[1..]| && picks[1..][k] == x && Confirms(answers[1..][k]);
        assert picks[k + 1] == x && Confirms(answers[k + 1]);
      }
      if exists k :: 0 <= k < |picks| && picks[k] == x && Confirms(answers[k]) {
        var k :| 0 <= k < |picks| && picks[k] == x && Confirms(answers[k]);
        if k > 0 {
          assert picks[1..][k - 1] == x && Confirms(answers[1..][k - 1]);
        }
      }
    }
  }

  /**
   * A completed removal takes off exactly the players at the numbers typed whose
   * answer confirms them.
   */
  lemma RemoveOnlyConfirmed(roster: seq<Player>, nums: string, answers: seq<string>, x: Player)
    requires RemovePlayers(roster, nums, answers).raised.None?
    ensures var picks := RemovalPicks(roster, nums);
      && |answers| >= |picks|
      && (x in RemovePlayers(roster, nums, answers).changed <==>
          exists k :: 0 <= k < |picks| && picks[k] == x && Confirms(answers[k]))
  {
    ConfirmedPicksIff(RemovalPicks(roster, nums), answers, x);
  }

  /**
   * `_remove_players` with the picks compared by position, so a number typed twice
   * is asked about once: the roster is sorted by name, the selected players are
   * asked about in input order, and the roster is re-sorted and saved when anyone
   * was removed.
   */
  function RemovePlayers(roster: seq<Player>, nums: string, answers: seq<string>): (r: Edited)
    ensures multiset(r.players) + multiset(r.changed) == multiset(roster)
    ensures r.raised.None? || r.raised == Some(EndOfInput) || r.raised == Some(NotInList)
    ensures Saved(r) ==> Sorting.Sorted(NameLe, r.players)
    ensures r.raised.None? ==> |answers| >= |RemovalPicks(roster, nums)|
    ensures r.raised.None? ==> r.changed == ConfirmedPicks(RemovalPicks(roster, nums), answers)
    ensures r.raised == Some(EndOfInput) <==> |answers| < |RemovalPicks(roster, nums)| && r.raised != Some(NotInList)
  {
    if |roster| == 0 then SelectFromNone(Tokens(nums), {}); Edited(roster, [], None)
    else
      var sorted := ByName(roster);
      var picks := RemovalPicks(roster, nums);
      if |picks| == 0 then Edited(sorted, [], None)
      else
        var c := Confirm(sorted, picks, answers);
        if Saved(c) then c.(players := ByName(c.players)) else c
  }

  /** On a roster without repeats, removal never fails to find a confirmed player. */
  lemma RemoveNeverMissing(roster: seq<Player>, nums: string, answers: seq<string>)
    requires Distinct(roster)
    ensures RemovePlayers(roster, nums, answers).raised != Some(NotInList)
  {
    if |roster| > 0 {
      var sorted := ByName(roster);
      DistinctPermuted(roster, sorted);
      var idx := Select(Tokens(nums), |sorted|, {});
      PicksDistinct(sorted, idx);
      ConfirmDistinctFound(sorted, Picks(sorted, idx), answers);
    }
  }

  // ---------- managing the roster ----------

  datatype RosterEdit = AddNumbers(nums: string) | RemoveNumbers(nums: string, answers: seq<string>)

  /** `manage_players_in_tournament`: the roster can be edited only before the tournament starts. */
  function ManageRoster(t: Tournament, registry: seq<Player>, edit: RosterEdit): (r: Edited)
    ensures t.status != NotStarted ==> r.players == t.players && !Saved(r)
    ensures multiset(r.players) == multiset(t.players) + multiset(if edit.AddNumbers? then r.changed else [])
                                                     - multiset(if edit.RemoveNumbers? then r.changed else [])
  {
    if t.status != NotStarted then Edited(t.players, [], None)
    else
      match edit
      case AddNumbers(nums) => AddPlayers(t.players, registry, nums)
      case RemoveNumbers(nums, answers) => RemovePlayers(t.players, nums, answers)
  }

  // ---------- replacing a player's entries ----------

  /**
   * `update_player_references` for one tournament: every roster entry with the
   * player's id becomes the player; `changed` says whether any did.
   */
  function ReplaceById(ps: seq<Player>, p: Player): (r: (seq<Player>, bool))
    ensures |r.0| == |ps| && Ids(r.0) == Ids(ps)
    ensures forall i :: 0 <= i < |ps| && ps[i].id != p.id ==> r.0[i] == ps[i]
    ensures forall i :: 0 <= i < |ps| && ps[i].id == p.id ==> r.0[i] == p
    ensures r.1 <==> p.id in Ids(ps)
  {
    var out := seq(|ps|, i requires 0 <= i < |ps| => if ps[i].id == p.id then p else ps[i]);
    assert Ids(out) == Ids(ps);
    (out, exists i :: 0 <= i < |ps| && ps[i].id == p.id)
  }

  /** Replacing again changes nothing more, though the tournament is saved again. */
  lemma ReplaceSettles(ps: seq<Player>, p: Player)
    ensures ReplaceById(ReplaceById(ps, p).0, p) == ReplaceById(ps, p)
  {
    var a := ReplaceById(ps, p).0;
    var b := ReplaceById(a, p).0;
    assert forall i :: 0 <= i < |a| ==> a[i].id == ps[i].id by {
      assert Ids(a) == Ids(ps);
    }
    assert b == a;
  }

  /** Each tournament with its players' entries replaced, and whether it is saved. */
  function UpdatePlayerReferences(ts: seq<Tournament>, p: Player): (r: seq<(Tournament, bool)>)
    ensures |r| == |ts|
    ensures forall k :: 0 <= k < |ts| ==>
      r[k].0 == ts[k].(players := ReplaceById(ts[k].players, p).0) && (r[k].1 <==> p.id in Ids(ts[k].players))
  {
    seq(|ts|, k requires 0 <= k < |ts| => (ts[k].(players := ReplaceById(ts[k].players, p).0), ReplaceById(ts[k].players, p).1))
  }
}
