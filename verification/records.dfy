/**
 * The stored form of a tournament (`Tournament.save` / `Tournament.load` in
 * models/tournament.py) as an in-memory record, and the file name `_file_path`
 * derives from the tournament's name. Reading and writing the JSON file is not
 * part of this model.
 */
module Records {
  import opened Wrappers
  import opened Matches
  import opened Domain
  import opened Lifecycle
  import Text

  datatype RoundRecord = RoundRecord(name: string, matches: seq<SerialMatch>, startTime: int, endTime: Option<int>)

  /** `history` is optional in a stored tournament; `None` is a missing key. */
  datatype TournamentRecord = TournamentRecord(
    name: string,
    place: string,
    startDate: string,
    endDate: string,
    description: string,
    totalRounds: int,
    status: string,
    currentRoundIndex: int,
    players: seq<string>,
    rounds: seq<RoundRecord>,
    history: Option<seq<(string, string)>>)

  // ---------- save ----------

  function RoundToRecord(r: Round): (rec: RoundRecord)
    ensures |rec.matches| == |r.matches|
    ensures forall j :: 0 <= j < |r.matches| ==> Deserialize(rec.matches[j]) == r.matches[j]
    ensures rec.name == r.name && rec.startTime == r.startTime && rec.endTime == r.endTime
  {
    RoundRecord(r.name, seq(|r.matches|, j requires 0 <= j < |r.matches| => Serialize(r.matches[j])), r.startTime, r.endTime)
  }

  /** The record `save` writes: players by id only, matches serialised, the history as it is. */
  function ToRecord(t: Tournament): (rec: TournamentRecord)
    ensures rec.players == Ids(t.players)
    ensures |rec.rounds| == |t.rounds|
    ensures rec.history == Some(t.history)
    ensures rec.status == t.status && rec.currentRoundIndex == t.currentRoundIndex && rec.totalRounds == t.totalRounds
    ensures forall i :: 0 <= i < |t.rounds| ==> rec.rounds[i] == RoundToRecord(t.rounds[i])
    ensures rec.name == t.name && rec.place == t.place && rec.description == t.description
    ensures rec.startDate == t.startDate && rec.endDate == t.endDate
  {
    TournamentRecord(t.name, t.place, t.startDate, t.endDate, t.description, t.totalRounds,
      t.status, t.currentRoundIndex, Ids(t.players),
      seq(|t.rounds|, i requires 0 <= i < |t.rounds| => RoundToRecord(t.rounds[i])),
      Some(t.history))
  }

  // ---------- load ----------

  /**
   * The position `{p.national_id: p for p in registry}` keeps for `id`: a later entry
   * with the same id replaces an earlier one, so it is the last one.
   */
  function LastWithId(reg: seq<Player>, id: string): (k: Option<nat>)
    ensures k.Some? ==> k.value < |reg| && reg[k.value].id == id
    ensures k.Some? ==> forall j :: k.value < j < |reg| ==> reg[j].id != id
    ensures k.None? <==> forall j :: 0 <= j < |reg| ==> reg[j].id != id
  {
    if |reg| == 0 then None
    else if reg[|reg| - 1].id == id then Some(|reg| - 1)
    else LastWithId(reg[..|reg| - 1], id)
  }

  /** `id_map[nid]`: the registered player with that id, or a KeyError. */
  function Lookup(reg: seq<Player>, id: string): (r: Result<Player, Error>)
    ensures r.Err? <==> forall j :: 0 <= j < |reg| ==> reg[j].id != id
    ensures r.Err? ==> r.error == UnknownId
    ensures r.Ok? ==> r.value in reg && r.value.id == id
  {
    match LastWithId(reg, id)
    case None => Err(UnknownId)
    case Some(k) => Ok(reg[k])
  }

  predicate Known(reg: seq<Player>, id: string) {
    exists j :: 0 <= j < |reg| && reg[j].id == id
  }

  /** `[id_map[nid] for nid in ids]` */
  function LookupAll(reg: seq<Player>, ids: seq<string>): (r: Result<seq<Player>, Error>)
    ensures r.Err? <==> exists i :: 0 <= i < |ids| && !Known(reg, ids[i])
    ensures r.Err? ==> r.error == UnknownId
    ensures r.Ok? ==> |r.value| == |ids| && forall i :: 0 <= i < |ids| ==> r.value[i] == Lookup(reg, ids[i]).value
  {
    if |ids| == 0 then Ok([])
    else
      match Lookup(reg, ids[0])
      case Err(e) => Err(e)
      case Ok(p) =>
        match LookupAll(reg, ids[1..])
        case Err(e) =>
          assert forall i :: 0 <= i < |ids[1..]| ==> ids[1..][i] == ids[i + 1];
          Err(e)
        case Ok(ps) => Ok([p] + ps)
  }

  /** Every player of every stored match is registered: `load` looks both up. */
  predicate MatchesKnown(reg: seq<Player>, ms: seq<SerialMatch>) {
    forall j :: 0 <= j < |ms| ==> Known(reg, ms[j].0.0) && Known(reg, ms[j].1.0)
  }

  /** A round as `load` rebuilds it; a stored match naming an unknown player is a KeyError. */
  function RoundFromRecord(reg: seq<Player>, rec: RoundRecord): (r: Result<Round, Error>)
    ensures r.Err? <==> !MatchesKnown(reg, rec.matches)
    ensures r.Err? ==> r.error == UnknownId
    ensures r.Ok? ==> r.value.name == rec.name && r.value.startTime == rec.startTime && r.value.endTime == rec.endTime
    ensures r.Ok? ==> |r.value.matches| == |rec.matches|
    ensures r.Ok? ==> forall j :: 0 <= j < |rec.matches| ==> r.value.matches[j] == Deserialize(rec.matches[j])
  {
    if MatchesKnown(reg, rec.matches) then
      Ok(Round(rec.name, seq(|rec.matches|, j requires 0 <= j < |rec.matches| => Deserialize(rec.matches[j])), rec.startTime, rec.endTime))
    else Err(UnknownId)
  }

  function RoundsFromRecords(reg: seq<Player>, recs: seq<RoundRecord>): (r: Result<seq<Round>, Error>)
    ensures r.Err? <==> exists i :: 0 <= i < |recs| && !MatchesKnown(reg, recs[i].matches)
    ensures r.Err? ==> r.error == UnknownId
    ensures r.Ok? ==> |r.value| == |recs| && forall i :: 0 <= i < |recs| ==> Ok(r.value[i]) == RoundFromRecord(reg, recs[i])
  {
    if |recs| == 0 then Ok([])
    else
      match RoundFromRecord(reg, recs[0])
      case Err(e) => Err(e)
      case Ok(r) =>
        match RoundsFromRecords(reg, recs[1..])
        case Err(e) =>
          assert forall i :: 0 <= i < |recs[1..]| ==> recs[1..][i] == recs[i + 1];
          Err(e)
        case Ok(rs) => Ok([r] + rs)
  }

  /**
   * `load`: the header fields and status come back as stored, players are the
   * registered players with the stored ids, a missing history is empty, and the
   * points are recalculated from the stored scores.
   */
  function FromRecord(rec: TournamentRecord, reg: seq<Player>): (r: Result<Tournament, Error>)
    ensures r.Err? <==>
      (exists i :: 0 <= i < |rec.players| && !Known(reg, rec.players[i])) ||
      (exists i :: 0 <= i < |rec.rounds| && !MatchesKnown(reg, rec.rounds[i].matches))
    ensures r.Err? ==> r.error == UnknownId
    ensures r.Ok? ==> PointsConsistent(r.value) && Ids(r.value.players) == rec.players
    ensures r.Ok? ==> r.value.history == (if rec.history.Some? then rec.history.value else [])
    ensures r.Ok? ==> r.value.status == rec.status && r.value.currentRoundIndex == rec.currentRoundIndex
    ensures r.Ok? ==> LookupAll(reg, rec.players).Ok? && SameRoster(r.value.players, LookupAll(reg, rec.players).value)
    ensures r.Ok? ==> RoundsFromRecords(reg, rec.rounds).Ok? && r.value.rounds == RoundsFromRecords(reg, rec.rounds).value
    ensures r.Ok? ==> r.value.name == rec.name && r.value.place == rec.place && r.value.description == rec.description
    ensures r.Ok? ==> r.value.startDate == rec.startDate && r.value.endDate == rec.endDate
    ensures r.Ok? ==> r.value.totalRounds == rec.totalRounds
  {
    match LookupAll(reg, rec.players)
    case Err(e) => Err(e)
    case Ok(ps) =>
      match RoundsFromRecords(reg, rec.rounds)
      case Err(e) => Err(e)
      case Ok(rs) =>
        var t := Tournament(rec.name, rec.place, rec.startDate, rec.endDate, rec.description, rec.totalRounds,
          rec.status, rec.currentRoundIndex, ps, rs, if rec.history.Some? then rec.history.value else []);
        RecalculateConsistent(t);
        Ok(Recalculate(t))
  }

  /**
   * The registry knows every player the tournament mentions, and the entry `load`
   * picks for each roster player is that player, points aside.
   */
  predicate RegistryAgrees(reg: seq<Player>, t: Tournament) {
    && (forall i :: 0 <= i < |t.players| ==>
          Lookup(reg, t.players[i].id).Ok? && Lookup(reg, t.players[i].id).value.(points := 0) == t.players[i].(points := 0))
    && (forall i, j :: 0 <= i < |t.rounds| && 0 <= j < |t.rounds[i].matches| ==>
          Known(reg, t.rounds[i].matches[j].id1) && Known(reg, t.rounds[i].matches[j].id2))
  }

  /** Saving then loading gives back the tournament, with its points recalculated. */
  lemma SaveLoadRoundTrip(t: Tournament, reg: seq<Player>)
    requires RegistryAgrees(reg, t)
    ensures FromRecord(ToRecord(t), reg) == Ok(Recalculate(t))
  {
    var rec := ToRecord(t);
    forall i | 0 <= i < |rec.players|
      ensures Known(reg, rec.players[i])
    {
      assert Lookup(reg, t.players[i].id).Ok?;
    }
    var ps := LookupAll(reg, rec.players).value;
    forall i | 0 <= i < |rec.rounds|
      ensures MatchesKnown(reg, rec.rounds[i].matches)
    {
      assert rec.rounds[i] == RoundToRecord(t.rounds[i]);
      forall j | 0 <= j < |rec.rounds[i].matches|
        ensures Known(reg, rec.rounds[i].matches[j].0.0) && Known(reg, rec.rounds[i].matches[j].1.0)
      {
        assert Deserialize(rec.rounds[i].matches[j]) == t.rounds[i].matches[j];
      }
    }
    var rs := RoundsFromRecords(reg, rec.rounds).value;
    forall i | 0 <= i < |rs|
      ensures rs[i] == t.rounds[i]
    {
      assert rec.rounds[i] == RoundToRecord(t.rounds[i]);
      assert Ok(rs[i]) == RoundFromRecord(reg, rec.rounds[i]);
      assert rs[i].matches == t.rounds[i].matches;
    }
    assert SameRoster(ps, t.players);
    var t' := t.(players := ps, rounds := rs);
    assert rs == t.rounds;
    assert t' == t.(players := ps);
    RecalculateIgnoresPoints(t, ps);
  }

  // ---------- _file_path ----------

  /** `s.replace(a, b)` for single characters. */
  function ReplaceChar(s: string, a: char, b: char): (r: string)
    ensures |r| == |s|
    ensures forall i :: 0 <= i < |s| ==> r[i] == if s[i] == a then b else s[i]
  {
    seq(|s|, i requires 0 <= i < |s| => if s[i] == a then b else s[i])
  }

  /** What one character of the name becomes in the file name. */
  function FileChar(c: char): char {
    if c == ' ' then '_' else Text.LowerChar(c)
  }

  /** The file a tournament is saved to: its name lower-cased, spaces as underscores, then `.json`. */
  function FileName(name: string): (f: string)
    ensures |f| == |name| + 5 && f[|name|..] == ".json"
    ensures forall i :: 0 <= i < |name| ==> f[i] != ' ' && !('A' <= f[i] <= 'Z')
    ensures forall i :: 0 <= i < |name| ==> f[i] == FileChar(name[i])
  {
    ReplaceChar(Text.Lower(name), ' ', '_') + ".json"
  }

  /** Two tournaments share a file exactly when their names agree character by character once folded. */
  lemma FileNameShared(a: string, b: string)
    ensures FileName(a) == FileName(b) <==> |a| == |b| && forall i :: 0 <= i < |a| ==> FileChar(a[i]) == FileChar(b[i])
  {
    if FileName(a) == FileName(b) {
      assert |a| == |b|;
      forall i | 0 <= i < |a|
        ensures FileChar(a[i]) == FileChar(b[i])
      {
        assert FileName(a)[i] == FileName(b)[i];
      }
    } else if |a| == |b| {
      assert FileName(a)[|a|..] == FileName(b)[|b|..];
      var i :| 0 <= i < |FileName(a)| && FileName(a)[i] != FileName(b)[i];
    }
  }

  /** Two names that differ only in case, or in space against underscore, share a file. */
  lemma FileNameCollision()
    ensures FileName("Open A") == FileName("open_a")
    ensures "Open A" != "open_a"
  {
    assert Text.Lower("Open A") == "open a";
    assert Text.Lower("open_a") == "open_a";
    assert ReplaceChar("open a", ' ', '_') == "open_a";
    assert ReplaceChar("open_a", ' ', '_') == "open_a";
  }
}
