/**
 * controllers/player_controller.py: the player registry's id rules, editing and
 * deleting a player chosen by number or id, and copying an edited player into every
 * stored tournament. Dates of birth are taken as already validated.
 */
module Registry {
  import opened Wrappers
  import opened Domain
  import Text
  import Roster

  // ---------- ids ----------

  /** `re.fullmatch(r"AB\d{5}", s)`: "AB" and five digits. */
  predicate IdShape(s: string) {
    |s| == 7 && s[0] == 'A' && s[1] == 'B' && Text.AllDigits(s[2..])
  }

  /** An id as typed: stripped and upper-cased. */
  function NormalizeId(raw: string): string {
    Text.Upper(Text.Strip(raw))
  }

  /** The creation prompt takes an answer of the right shape that no player uses yet. */
  predicate NewIdAccepted(players: seq<Player>, raw: string) {
    IdShape(NormalizeId(raw)) && NormalizeId(raw) !in Ids(players)
  }

  /** `.strip().title()`, or the old value when that is empty. */
  function OrKeep(line: string, prior: string): (r: string)
    ensures Text.Strip(line) == [] ==> r == prior
  {
    var s := Text.Title(Text.Strip(line));
    if s == [] then prior else s
  }

  /** The first answer the id prompt accepts: every earlier one is malformed or already in use. */
  function FirstAccepted(players: seq<Player>, idLines: seq<string>): (k: Option<nat>)
    ensures k.None? <==> forall j :: 0 <= j < |idLines| ==> !NewIdAccepted(players, idLines[j])
    ensures k.Some? ==> k.value < |idLines| && NewIdAccepted(players, idLines[k.value])
    ensures k.Some? ==> forall j :: 0 <= j < k.value ==> !NewIdAccepted(players, idLines[j])
  {
    Text.FirstWhere(idLines, (l: string) => NewIdAccepted(players, l))
  }

  /**
   * `create_player`: the id is asked until one is accepted (EOFError when the
   * answers run out); the names are stripped and title-cased; the new player starts
   * at zero points and goes at the end of the registry.
   */
  function CreatePlayer(players: seq<Player>, idLines: seq<string>, lastName: string, firstName: string,
                        birthDate: string): (r: Result<seq<Player>, Error>)
    ensures r.Err? <==> forall j :: 0 <= j < |idLines| ==> !NewIdAccepted(players, idLines[j])
    ensures r.Err? ==> r.error == EndOfInput
    ensures r.Ok? ==> |r.value| == |players| + 1 && r.value[..|players|] == players
    ensures r.Ok? ==> var p := r.value[|players|];
      IdShape(p.id) && p.id !in Ids(players) && p.points == 0 && p.birthDate == birthDate
      && p.lastName == Text.Title(Text.Strip(lastName)) && p.firstName == Text.Title(Text.Strip(firstName))
    ensures r.Ok? ==> FirstAccepted(players, idLines).Some?
    ensures r.Ok? ==> r.value[|players|].id == NormalizeId(idLines[FirstAccepted(players, idLines).value])
  {
    match FirstAccepted(players, idLines)
    case None => Err(EndOfInput)
    case Some(k) =>
      var id := NormalizeId(idLines[k]);
      Ok(players + [Player(id, Text.Title(Text.Strip(lastName)), Text.Title(Text.Strip(firstName)), birthDate, 0)])
  }

  /** Creating a player keeps the registry's ids distinct. */
  lemma CreateKeepsIdsUnique(players: seq<Player>, idLines: seq<string>, lastName: string, firstName: string, birthDate: string)
    requires UniqueIds(players)
    ensures var r := CreatePlayer(players, idLines, lastName, firstName, birthDate);
      r.Ok? ==> UniqueIds(r.value)
  {
    var r := CreatePlayer(players, idLines, lastName, firstName, birthDate);
    if r.Ok? {
      var n := |players|;
      forall i, j | 0 <= i < j < |r.value|
        ensures r.value[i].id != r.value[j].id
      {
        if j == n {
          assert r.value[i] == players[i];
          assert players[i].id == Ids(players)[i];
        } else {
          assert r.value[i] == players[i] && r.value[j] == players[j];
        }
      }
    }
  }

  // ---------- choosing a player ----------

  /** The first position holding `x`: the entry `list.remove(x)` drops. */
  function FirstIndex<T(==)>(s: seq<T>, x: T): (k: nat)
    requires x in s
    ensures k < |s| && s[k] == x && x !in s[..k]
  {
    if s[0] == x then 0 else 1 + FirstIndex(s[1..], x)
  }

  /** The position of the player listed `idx`-th in name order. */
  function NumberPosition(players: seq<Player>, idx: nat): (k: nat)
    requires idx < |players|
    ensures k < |players| && players[k] == Roster.ByName(players)[idx]
  {
    var ordered := Roster.ByName(players);
    assert ordered[idx] in multiset(players);
    FirstIndex(players, ordered[idx])
  }

  /** The position of the first player whose id is `id`. */
  function IdPosition(players: seq<Player>, id: string): (k: Option<nat>)
    ensures k.Some? <==> id in Ids(players)
    ensures k.Some? ==> k.value < |players| && players[k.value].id == id
    ensures k.Some? ==> forall j :: 0 <= j < k.value ==> players[j].id != id
  {
    if |players| == 0 then None
    else if players[0].id == id then Some(0)
    else
      var rest := IdPosition(players[1..], id);
      assert Ids(players) == [players[0].id] + Ids(players[1..]);
      if rest.Some? then Some(rest.value + 1) else None
  }

  /**
   * The player a normalised answer `s` designates: a number picks from the list
   * sorted by name, anything else is an id matched against the registry in its own
   * order.
   */
  function SelectPlayer(players: seq<Player>, s: string): (k: Option<nat>)
    ensures k.Some? ==> k.value < |players|
    ensures Text.IsDigits(s) ==> (k.Some? <==> 1 <= Text.DigitsValue(s) <= |players|)
    ensures Text.IsDigits(s) && k.Some? ==> players[k.value] == Roster.ByName(players)[Text.DigitsValue(s) - 1]
    ensures !Text.IsDigits(s) ==> (k.Some? <==> s in Ids(players))
    ensures !Text.IsDigits(s) && k.Some? ==>
      players[k.value].id == s && forall j :: 0 <= j < k.value ==> players[j].id != s
  {
    if Text.IsDigits(s) then
      var n := Text.DigitsValue(s);
      if 1 <= n <= |players| then Some(NumberPosition(players, n - 1)) else None
    else IdPosition(players, s)
  }

  // ---------- updating a player ----------

  /**
   * The id check of `update_player` as the source writes it: the raw pattern
   * `AB\\d{5}` is "AB", a backslash and five letters `d`.
   */
  predicate UpdateIdPatternAsWritten(s: string) {
    s == "AB\\ddddd"
  }

  /** An upper-cased answer never contains a lower-case `d`, so it never matches that pattern. */
  lemma AsWrittenRejectsEveryId(raw: string)
    ensures !UpdateIdPatternAsWritten(NormalizeId(raw))
    ensures IdShape("AB12345") && !UpdateIdPatternAsWritten(NormalizeId("AB12345"))
  {
    Text.UpperHasNoLowercase(Text.Strip(raw), 'd');
    assert "AB\\ddddd"[3] == 'd';
    assert Text.AllDigits("AB12345"[2..]) by {
      assert "AB12345"[2..] == "12345";
    }
  }

  /** As written, the id a player is updated to is always the id it had. */
  predicate IdChangeAllowedAsWritten(players: seq<Player>, k: nat, newId: string)
    requires k < |players|
  {
    newId == players[k].id ||
    (UpdateIdPatternAsWritten(newId) && forall j :: 0 <= j < |players| && j != k ==> players[j].id != newId)
  }

  lemma AsWrittenKeepsId(players: seq<Player>, k: nat, raw: string)
    requires k < |players|
    ensures IdChangeAllowedAsWritten(players, k, NormalizeId(raw)) ==> NormalizeId(raw) == players[k].id
  {
    AsWrittenRejectsEveryId(raw);
  }

  /** A changed id must have the creation shape and be free among the other players. */
  predicate IdChangeAllowed(players: seq<Player>, k: nat, newId: string)
    requires k < |players|
  {
    newId == players[k].id ||
    (IdShape(newId) && forall j :: 0 <= j < |players| && j != k ==> players[j].id != newId)
  }

  /** The registry after an update, and the old id with the new record when one was applied. */
  datatype Updated = Updated(players: seq<Player>, synced: Option<(string, Player)>)

  /** The id an update asks for: the typed one, or the old one when the answer is blank. */
  function RequestedId(prior: Player, idLine: string): (id: string)
    ensures NormalizeId(idLine) == [] ==> id == prior.id
    ensures NormalizeId(idLine) != [] ==> id == NormalizeId(idLine)
  {
    var typed := NormalizeId(idLine);
    if typed == [] then prior.id else typed
  }

  /**
   * The record an update writes: the settled id, names retyped unless left blank,
   * the date of birth unless left blank (`None`), and the points untouched.
   */
  function Revised(prior: Player, newId: string, lastLine: string, firstLine: string, birth: Option<string>): (p: Player)
    ensures p.id == newId && p.points == prior.points
    ensures Text.Strip(lastLine) == [] ==> p.lastName == prior.lastName
    ensures Text.Strip(firstLine) == [] ==> p.firstName == prior.firstName
    ensures birth.None? ==> p.birthDate == prior.birthDate
    ensures birth.Some? ==> p.birthDate == birth.value
  {
    Player(newId, OrKeep(lastLine, prior.lastName), OrKeep(firstLine, prior.firstName),
           if birth.Some? then birth.value else prior.birthDate, prior.points)
  }

  /**
   * `update_player`, with a changed id checked against the creation pattern: the
   * designated player is revised in place, unless the id asked for is malformed or
   * held by another player, in which case nothing changes.
   */
  function UpdatePlayer(players: seq<Player>, key: string, idLine: string, lastLine: string, firstLine: string,
                        birth: Option<string>): (r: Updated)
    ensures |r.players| == |players|
    ensures r.synced.None? ==> r.players == players
    ensures r.synced.Some? ==> exists k :: (0 <= k < |players| && SelectPlayer(players, NormalizeId(key)) == Some(k)
      && r.synced.value == (players[k].id, Revised(players[k], RequestedId(players[k], idLine), lastLine, firstLine, birth))
      && r.players == players[k := r.synced.value.1])
    ensures UniqueIds(players) ==> UniqueIds(r.players)
    ensures r.synced.Some? <==>
      var sel := SelectPlayer(players, NormalizeId(key));
      sel.Some? && IdChangeAllowed(players, sel.value, RequestedId(players[sel.value], idLine))
  {
    if |players| == 0 then Updated(players, None)
    else
      match SelectPlayer(players, NormalizeId(key))
      case None => Updated(players, None)
      case Some(k) =>
        var prior := players[k];
        var newId := RequestedId(prior, idLine);
        if !IdChangeAllowed(players, k, newId) then Updated(players, None)
        else
          var p := Revised(prior, newId, lastLine, firstLine, birth);
          var r := players[k := p];
          assert UniqueIds(players) ==> UniqueIds(r) by {
            if UniqueIds(players) {
              ReplaceKeepsUnique(players, k, p);
            }
          }
          Updated(r, Some((prior.id, p)))
  }

  /** Giving position `k` its own id or one no other position holds keeps the ids distinct. */
  lemma ReplaceKeepsUnique(players: seq<Player>, k: nat, p: Player)
    requires k < |players| && UniqueIds(players)
    requires p.id == players[k].id || forall j :: 0 <= j < |players| && j != k ==> players[j].id != p.id
    ensures UniqueIds(players[k := p])
  {
    var r := players[k := p];
    forall i, j | 0 <= i < j < |r|
      ensures r[i].id != r[j].id
    {
      if i != k && j != k {
        assert r[i] == players[i] && r[j] == players[j];
      }
    }
  }

  /** A well-formed id that no other player uses is taken, and only that player changes. */
  lemma UpdateChangesId(players: seq<Player>, key: string, idLine: string, lastLine: string, firstLine: string,
                        birth: Option<string>, k: nat)
    requires SelectPlayer(players, NormalizeId(key)) == Some(k)
    requires IdShape(NormalizeId(idLine))
    requires forall j :: 0 <= j < |players| && j != k ==> players[j].id != NormalizeId(idLine)
    ensures var r := UpdatePlayer(players, key, idLine, lastLine, firstLine, birth);
      r.synced.Some? && r.players[k].id == NormalizeId(idLine)
      && forall j :: 0 <= j < |players| && j != k ==> r.players[j] == players[j]
  {
    var newId := RequestedId(players[k], idLine);
    assert newId == NormalizeId(idLine) by {
      assert |NormalizeId(idLine)| == 7;
    }
    assert IdChangeAllowed(players, k, newId);
  }

  /** Leaving the id blank keeps it, and the update goes through: only the names and the date change. */
  lemma UpdateBlankIdRevises(players: seq<Player>, key: string, idLine: string, lastLine: string, firstLine: string,
                             birth: Option<string>, k: nat)
    requires SelectPlayer(players, NormalizeId(key)) == Some(k)
    requires NormalizeId(idLine) == []
    ensures var r := UpdatePlayer(players, key, idLine, lastLine, firstLine, birth);
      && r.synced == Some((players[k].id, Revised(players[k], players[k].id, lastLine, firstLine, birth)))
      && r.players[k].id == players[k].id
      && forall j :: 0 <= j < |players| && j != k ==> r.players[j] == players[j]
  {
    assert RequestedId(players[k], idLine) == players[k].id;
    assert IdChangeAllowed(players, k, players[k].id);
  }

  /** An id already held by another player is refused and the registry stays as it was. */
  lemma UpdateRefusesTakenId(players: seq<Player>, key: string, idLine: string, lastLine: string, firstLine: string,
                             birth: Option<string>, k: nat, j: nat)
    requires SelectPlayer(players, NormalizeId(key)) == Some(k)
    requires NormalizeId(idLine) != [] && NormalizeId(idLine) != players[k].id
    requires j < |players| && j != k && players[j].id == NormalizeId(idLine)
    ensures UpdatePlayer(players, key, idLine, lastLine, firstLine, birth) == Updated(players, None)
  {
    var newId := RequestedId(players[k], idLine);
    assert newId == players[j].id;
    assert !IdChangeAllowed(players, k, newId);
  }

  // ---------- deleting a player ----------

  /**
   * `delete_player`: a number removes the player listed under it in name order; any
   * other answer removes the first player with that id. The removed player, if any,
   * is returned.
   */
  function DeletePlayer(players: seq<Player>, key: string): (r: (seq<Player>, Option<Player>))
    ensures r.1.None? ==> r.0 == players
    ensures r.1.Some? ==> r.1.value in players && multiset(r.0) + multiset{r.1.value} == multiset(players)
    ensures r.1.Some? <==> SelectPlayer(players, NormalizeId(key)).Some?
    ensures r.1.Some? ==> r.1.value == players[SelectPlayer(players, NormalizeId(key)).value]
  {
    match SelectPlayer(players, NormalizeId(key))
    case None => (players, None)
    case Some(k) =>
      var x := players[k];
      (Roster.RemoveFirst(players, x), Some(x))
  }

  /** Typing the number `k` deletes the `k`-th player of the list sorted by name. */
  lemma DeleteByNumber(players: seq<Player>, k: nat)
    requires 1 <= k <= |players|
    ensures DeletePlayer(players, Text.NatToString(k)).1 == Some(Roster.ByName(players)[k - 1])
  {
    var s := Text.NatToString(k);
    NormalizeDigits(k);
    Text.NatToStringRoundTrip(k);
  }

  /** The digits of a number are their own normal form. */
  lemma NormalizeDigits(k: nat)
    ensures NormalizeId(Text.NatToString(k)) == Text.NatToString(k)
  {
    var s := Text.NatToString(k);
    Text.NatToStringRoundTrip(k);
    assert !Text.IsSpace(s[0]) && !Text.IsSpace(s[|s| - 1]);
    Text.TrimKeepsClean(s, Text.IsSpace);
    assert Text.Upper(s) == s by {
      forall i | 0 <= i < |s|
        ensures Text.Upper(s)[i] == s[i]
      {
        assert Text.IsDigit(s[i]);
      }
    }
  }

  // ---------- copying an edit into the stored tournaments ----------

  /** A roster entry as stored in a tournament; `id` is `None` when the key is missing. */
  datatype StoredPlayer = StoredPlayer(id: Option<string>, lastName: string, firstName: string, birthDate: string, score: int)

  datatype StoredMatch = StoredMatch(player1: Option<string>, player2: Option<string>, score1: int, score2: int)

  /** A stored tournament: its roster records and the matches of each round. */
  datatype StoredTournament = StoredTournament(players: seq<StoredPlayer>, rounds: seq<seq<StoredMatch>>)

  /** The four copied fields; the score stays. */
  function SyncRecord(sp: StoredPlayer, oldId: string, p: Player): StoredPlayer {
    if sp.id == Some(oldId) then sp.(id := Some(p.id), lastName := p.lastName, firstName := p.firstName, birthDate := p.birthDate)
    else sp
  }

  function SyncMatch(m: StoredMatch, oldId: string, newId: string): StoredMatch {
    m.(player1 := if m.player1 == Some(oldId) then Some(newId) else m.player1,
       player2 := if m.player2 == Some(oldId) then Some(newId) else m.player2)
  }

  /** Some roster record or match of the tournament carries `id`. */
  predicate Mentions(t: StoredTournament, id: string) {
    (exists i :: 0 <= i < |t.players| && t.players[i].id == Some(id)) ||
    (exists r, j :: 0 <= r < |t.rounds| && 0 <= j < |t.rounds[r]| &&
       (t.rounds[r][j].player1 == Some(id) || t.rounds[r][j].player2 == Some(id)))
  }

  function SyncTournament(t: StoredTournament, oldId: string, p: Player): StoredTournament {
    StoredTournament(
      seq(|t.players|, i requires 0 <= i < |t.players| => SyncRecord(t.players[i], oldId, p)),
      seq(|t.rounds|, r requires 0 <= r < |t.rounds| =>
        seq(|t.rounds[r]|, j requires 0 <= j < |t.rounds[r]| => SyncMatch(t.rounds[r][j], oldId, p.id))))
  }

  /**
   * `_sync_player_everywhere`: every stored record and match carrying the old id is
   * brought up to date; the tournaments are written back exactly when one did.
   */
  function SyncEverywhere(ts: seq<StoredTournament>, oldId: string, p: Player): (r: (seq<StoredTournament>, bool))
    ensures |r.0| == |ts|
    ensures r.1 <==> exists k :: 0 <= k < |ts| && Mentions(ts[k], oldId)
    ensures forall k :: 0 <= k < |ts| && !Mentions(ts[k], oldId) ==> r.0[k] == ts[k]
    ensures forall k :: 0 <= k < |ts| ==>
      |r.0[k].players| == |ts[k].players| && |r.0[k].rounds| == |ts[k].rounds|
    ensures forall k, i :: 0 <= k < |ts| && 0 <= i < |ts[k].players| && ts[k].players[i].id == Some(oldId) ==>
      r.0[k].players[i] == ts[k].players[i].(id := Some(p.id), lastName := p.lastName, firstName := p.firstName, birthDate := p.birthDate)
    ensures forall k, i :: 0 <= k < |ts| && 0 <= i < |ts[k].players| && ts[k].players[i].id != Some(oldId) ==>
      r.0[k].players[i] == ts[k].players[i]
    ensures forall k, rd :: 0 <= k < |ts| && 0 <= rd < |ts[k].rounds| ==> |r.0[k].rounds[rd]| == |ts[k].rounds[rd]|
    ensures forall k, rd, j :: 0 <= k < |ts| && 0 <= rd < |ts[k].rounds| && 0 <= j < |ts[k].rounds[rd]| ==>
      r.0[k].rounds[rd][j] == ts[k].rounds[rd][j].(
        player1 := if ts[k].rounds[rd][j].player1 == Some(oldId) then Some(p.id) else ts[k].rounds[rd][j].player1,
        player2 := if ts[k].rounds[rd][j].player2 == Some(oldId) then Some(p.id) else ts[k].rounds[rd][j].player2)
  {
    var out := seq(|ts|, k requires 0 <= k < |ts| => SyncTournament(ts[k], oldId, p));
    assert forall k :: 0 <= k < |ts| && !Mentions(ts[k], oldId) ==> out[k] == ts[k] by {
      forall k | 0 <= k < |ts| && !Mentions(ts[k], oldId)
        ensures out[k] == ts[k]
      {
        UnmentionedUnchanged(ts[k], oldId, p);
      }
    }
    (out, exists k :: 0 <= k < |ts| && Mentions(ts[k], oldId))
  }

  lemma UnmentionedUnchanged(t: StoredTournament, oldId: string, p: Player)
    requires !Mentions(t, oldId)
    ensures SyncTournament(t, oldId, p) == t
  {
    var s := SyncTournament(t, oldId, p);
    assert s.players == t.players;
    forall r | 0 <= r < |t.rounds|
      ensures s.rounds[r] == t.rounds[r]
    {
      forall j | 0 <= j < |t.rounds[r]|
        ensures s.rounds[r][j] == t.rounds[r][j]
      {
      }
    }
  }

  /**
   * Scores are never touched: every stored score, of a roster record or of a match,
   * is what it was.
   */
  lemma SyncKeepsScores(ts: seq<StoredTournament>, oldId: string, p: Player, k: nat)
    requires k < |ts|
    ensures var t := SyncEverywhere(ts, oldId, p).0[k];
      && (forall i :: 0 <= i < |t.players| ==> t.players[i].score == ts[k].players[i].score)
      && (forall r, j :: 0 <= r < |t.rounds| && 0 <= j < |t.rounds[r]| ==>
            |t.rounds[r]| == |ts[k].rounds[r]| &&
            t.rounds[r][j].score1 == ts[k].rounds[r][j].score1 && t.rounds[r][j].score2 == ts[k].rounds[r][j].score2)
  {
    var t := SyncEverywhere(ts, oldId, p).0[k];
    if Mentions(ts[k], oldId) {
      assert t == SyncTournament(ts[k], oldId, p);
    }
  }

  /**
   * With a new id, no stored record or match keeps the old one, so syncing again
   * finds nothing to change and writes nothing.
   */
  lemma SyncSettles(ts: seq<StoredTournament>, oldId: string, p: Player)
    requires p.id != oldId
    ensures var r := SyncEverywhere(ts, oldId, p);
      (forall k :: 0 <= k < |ts| ==> !Mentions(r.0[k], oldId)) && SyncEverywhere(r.0, oldId, p) == (r.0, false)
  {
    var r := SyncEverywhere(ts, oldId, p);
    forall k | 0 <= k < |ts|
      ensures !Mentions(r.0[k], oldId)
    {
      var t := SyncTournament(ts[k], oldId, p);
      assert r.0[k] == t by {
        if !Mentions(ts[k], oldId) {
          UnmentionedUnchanged(ts[k], oldId, p);
        }
      }
      forall i | 0 <= i < |t.players|
        ensures t.players[i].id != Some(oldId)
      {
        assert t.players[i] == SyncRecord(ts[k].players[i], oldId, p);
      }
      forall r, j | 0 <= r < |t.rounds| && 0 <= j < |t.rounds[r]|
        ensures t.rounds[r][j].player1 != Some(oldId) && t.rounds[r][j].player2 != Some(oldId)
      {
        assert t.rounds[r][j] == SyncMatch(ts[k].rounds[r][j], oldId, p.id);
      }
    }
    var again := SyncEverywhere(r.0, oldId, p);
    assert again.0 == r.0;
  }
}
