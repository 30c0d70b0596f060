/** The Server.js variant of the tracker. Its database has three tables:
      players(id, name), matches(id, date, price) and
      match_players(id, match_id, player_id, paid, UNIQUE(match_id, player_id)).
    Players are added to a match with INSERT OR IGNORE, and toggle-paid only
    updates a row that is already there. No handler validates its input, so
    a missing field is stored as NULL. */
module MatchPlayersApi {
  import opened Values
  import opened TextOrder

  datatype Player = Player(id: int, name: Option<string>)
  datatype Match = Match(id: int, date: Option<string>, price: Option<real>)
  /** `playerId` is None when the request had no player_id (a NULL column);
      `paid` holds the stored integer, 0 or 1. */
  datatype MatchPlayer = MatchPlayer(id: int, matchId: int, playerId: Option<int>, paid: int)

  /** One row of GET /api/match/:match_id/players: `p.id, p.name, mp.paid`. */
  datatype RosterEntry = RosterEntry(id: int, name: Option<string>, paid: int)

  /** The JSON bodies the handlers answer with: `{id, name}`,
      `{id, date, price}` and `{success: true}`. */
  datatype Reply =
    | PlayerCreated(id: int, name: Option<string>)
    | MatchCreated(id: int, date: Option<string>, price: Option<real>)
    | Success

  function PlayerId(p: Player): int { p.id }
  function MatchId(m: Match): int { m.id }
  function MatchPlayerId(mp: MatchPlayer): int { mp.id }
  function MatchDate(m: Match): Option<string> { m.date }

  /** `match_id = ? AND player_id = ?`; a comparison with NULL is never true. */
  predicate Selects(mp: MatchPlayer, matchId: int, playerId: Option<int>) {
    playerId.Some? && mp.matchId == matchId && mp.playerId == playerId
  }

  /** Whether some row already holds the (match_id, player_id) pair. */
  predicate HasPair(rows: seq<MatchPlayer>, matchId: int, playerId: Option<int>) {
    exists i :: 0 <= i < |rows| && Selects(rows[i], matchId, playerId)
  }

  /** UNIQUE(match_id, player_id). As in SQL, rows whose player_id is NULL
      never clash with one another. */
  ghost predicate UniquePairs(rows: seq<MatchPlayer>) {
    forall i, j :: 0 <= i < j < |rows| && rows[i].matchId == rows[j].matchId && rows[i].playerId.Some? ==>
      rows[i].playerId != rows[j].playerId
  }

  ghost predicate DistinctPlayerIds(players: seq<Player>) {
    forall i, j :: 0 <= i < j < |players| ==> players[i].id != players[j].id
  }

  /** `INSERT OR IGNORE INTO match_players (match_id, player_id) VALUES (?, ?)`:
      a row that would break UNIQUE is skipped; otherwise it is appended with
      the next id and the default paid of 0. */
  function InsertOrIgnore(rows: seq<MatchPlayer>, newId: int, matchId: int, playerId: Option<int>): seq<MatchPlayer> {
    if HasPair(rows, matchId, playerId) then rows else rows + [MatchPlayer(newId, matchId, playerId, 0)]
  }

  lemma InsertOrIgnoreKeepsUnique(rows: seq<MatchPlayer>, newId: int, matchId: int, playerId: Option<int>)
    requires UniquePairs(rows)
    ensures UniquePairs(InsertOrIgnore(rows, newId, matchId, playerId))
  {
    var r := InsertOrIgnore(rows, newId, matchId, playerId);
    if !HasPair(rows, matchId, playerId) {
      forall i, j | 0 <= i < j < |r| && r[i].matchId == r[j].matchId && r[i].playerId.Some?
        ensures r[i].playerId != r[j].playerId
      {
        assert r[i] == rows[i];
        if j == |rows| {
          assert !Selects(rows[i], matchId, playerId);
        } else {
          assert r[j] == rows[j];
        }
      }
    }
  }

  /** Adding a player to a match twice leaves the table as adding it once. */
  lemma InsertOrIgnoreIdempotent(rows: seq<MatchPlayer>, id1: int, id2: int, matchId: int, playerId: Option<int>)
    requires playerId.Some?
    ensures InsertOrIgnore(InsertOrIgnore(rows, id1, matchId, playerId), id2, matchId, playerId)
         == InsertOrIgnore(rows, id1, matchId, playerId)
  {
    var once := InsertOrIgnore(rows, id1, matchId, playerId);
    if !HasPair(rows, matchId, playerId) {
      assert Selects(once[|rows|], matchId, playerId);
    }
  }

  /** Without a player_id the pair holds NULL, which UNIQUE never matches, so
      every such call appends another row. */
  lemma NullPlayerAlwaysInserted(rows: seq<MatchPlayer>, id1: int, id2: int, matchId: int)
    ensures |InsertOrIgnore(InsertOrIgnore(rows, id1, matchId, None), id2, matchId, None)| == |rows| + 2
  {
  }

  /** `UPDATE match_players SET paid = ? WHERE match_id = ? AND player_id = ?`:
      every selected row gets the flag, every other row is kept. */
  function SetPaidWhere(rows: seq<MatchPlayer>, matchId: int, playerId: Option<int>, flag: int): (r: seq<MatchPlayer>)
    ensures |r| == |rows|
    ensures forall i :: 0 <= i < |rows| ==>
      r[i] == if Selects(rows[i], matchId, playerId) then rows[i].(paid := flag) else rows[i]
    decreases |rows|
  {
    if rows == [] then
      []
    else
      var head := if Selects(rows[0], matchId, playerId) then rows[0].(paid := flag) else rows[0];
      [head] + SetPaidWhere(rows[1..], matchId, playerId, flag)
  }

  /** Toggling a pair that has no row changes nothing. */
  lemma {:induction false} SetPaidAbsentIsNoOp(rows: seq<MatchPlayer>, matchId: int, playerId: Option<int>, flag: int)
    requires !HasPair(rows, matchId, playerId)
    ensures SetPaidWhere(rows, matchId, playerId, flag) == rows
  {
    var r := SetPaidWhere(rows, matchId, playerId, flag);
    forall i | 0 <= i < |rows| ensures r[i] == rows[i] {
      assert !Selects(rows[i], matchId, playerId);
    }
  }

  /** Toggling keeps UNIQUE, and under UNIQUE it rewrites at most one row: the
      row of the pair, which then holds the new flag. */
  lemma {:induction false} SetPaidTouchesOnlyThePair(rows: seq<MatchPlayer>, matchId: int, playerId: Option<int>, flag: int)
    requires UniquePairs(rows)
    ensures
      var r := SetPaidWhere(rows, matchId, playerId, flag);
      && UniquePairs(r)
      && (forall i :: 0 <= i < |rows| && Selects(rows[i], matchId, playerId) ==>
            r[i].paid == flag && forall j :: 0 <= j < |rows| && j != i ==> r[j] == rows[j])
  {
    var r := SetPaidWhere(rows, matchId, playerId, flag);
    forall i, j | 0 <= i < j < |r| && r[i].matchId == r[j].matchId && r[i].playerId.Some?
      ensures r[i].playerId != r[j].playerId
    {
      assert r[i].matchId == rows[i].matchId && r[i].playerId == rows[i].playerId;
      assert r[j].matchId == rows[j].matchId && r[j].playerId == rows[j].playerId;
    }
    assert forall i, j :: 0 <= i < |rows| && 0 <= j < |rows| && j != i && Selects(rows[i], matchId, playerId) ==>
      !Selects(rows[j], matchId, playerId);
  }

  /** Two toggles of the same pair leave the table as the last one alone does. */
  lemma {:induction false} SetPaidLastWriteWins(rows: seq<MatchPlayer>, matchId: int, playerId: Option<int>, flag1: int, flag2: int)
    ensures SetPaidWhere(SetPaidWhere(rows, matchId, playerId, flag1), matchId, playerId, flag2)
         == SetPaidWhere(rows, matchId, playerId, flag2)
  {
    var once := SetPaidWhere(rows, matchId, playerId, flag1);
    var twice := SetPaidWhere(once, matchId, playerId, flag2);
    var direct := SetPaidWhere(rows, matchId, playerId, flag2);
    forall i | 0 <= i < |rows| ensures twice[i] == direct[i] {
      assert Selects(once[i], matchId, playerId) == Selects(rows[i], matchId, playerId);
    }
  }

  /** The entries that joining match_players row `mp` with the players table yields. */
  function RosterRow(mp: MatchPlayer, players: seq<Player>): (r: seq<RosterEntry>)
    ensures forall e :: e in r <==>
      exists p :: p in players && mp.playerId == Some(p.id) && e == RosterEntry(p.id, p.name, mp.paid)
    decreases |players|
  {
    if players == [] then
      []
    else
      var p := players[0];
      assert forall q :: q in players <==> q == p || q in players[1..];
      (if mp.playerId == Some(p.id) then [RosterEntry(p.id, p.name, mp.paid)] else [])
        + RosterRow(mp, players[1..])
  }

  /** `FROM match_players mp JOIN players p ON p.id = mp.player_id WHERE mp.match_id = ?`:
      one entry for each row of the match and each player it names. */
  function Roster(rows: seq<MatchPlayer>, players: seq<Player>, matchId: int): (r: seq<RosterEntry>)
    ensures forall e :: e in r <==>
      exists mp, p :: mp in rows && p in players && mp.matchId == matchId && mp.playerId == Some(p.id) &&
        e == RosterEntry(p.id, p.name, mp.paid)
    decreases |rows|
  {
    if rows == [] then
      []
    else
      var mp := rows[0];
      assert forall b :: b in rows <==> b == mp || b in rows[1..];
      (if mp.matchId == matchId then RosterRow(mp, players) else []) + Roster(rows[1..], players, matchId)
  }

  /** The number of match_players rows of the match whose player exists. */
  ghost function Rostered(rows: seq<MatchPlayer>, players: seq<Player>, matchId: int): nat
    decreases |rows|
  {
    if rows == [] then
      0
    else
      var here := rows[0].matchId == matchId && exists p :: p in players && rows[0].playerId == Some(p.id);
      (if here then 1 else 0) + Rostered(rows[1..], players, matchId)
  }

  lemma {:induction false} RosterRowCount(mp: MatchPlayer, players: seq<Player>)
    requires DistinctPlayerIds(players)
    ensures |RosterRow(mp, players)| == if exists p :: p in players && mp.playerId == Some(p.id) then 1 else 0
    decreases |players|
  {
    if players != [] {
      var tail := players[1..];
      assert DistinctPlayerIds(tail) by {
        forall i, j | 0 <= i < j < |tail| ensures tail[i].id != tail[j].id {
          assert tail[i] == players[i + 1] && tail[j] == players[j + 1];
        }
      }
      RosterRowCount(mp, tail);
      if mp.playerId == Some(players[0].id) {
        forall q | q in tail ensures mp.playerId != Some(q.id) {
          var j :| 0 <= j < |tail| && tail[j] == q;
          assert players[j + 1] == q;
        }
      }
      assert forall q :: q in players <==> q == players[0] || q in tail;
    }
  }

  /** With distinct player ids the roster has K entries when K rows of the match
      name an existing player. */
  lemma {:induction false} RosterCount(rows: seq<MatchPlayer>, players: seq<Player>, matchId: int)
    requires DistinctPlayerIds(players)
    ensures |Roster(rows, players, matchId)| == Rostered(rows, players, matchId)
    decreases |rows|
  {
    if rows != [] {
      RosterRowCount(rows[0], players);
      RosterCount(rows[1..], players, matchId);
    }
  }

  /** The shared database of Server.js. Each `*Seq` field is the table's
      sqlite_sequence value, the last AUTOINCREMENT id handed out. */
  class Store {
    var players: seq<Player>
    var matches: seq<Match>
    var matchPlayers: seq<MatchPlayer>
    var playersSeq: int
    var matchesSeq: int
    var matchPlayersSeq: int

    ghost predicate Valid()
      reads this
    {
      && AutoIncrementIds(players, PlayerId, playersSeq)
      && AutoIncrementIds(matches, MatchId, matchesSeq)
      && AutoIncrementIds(matchPlayers, MatchPlayerId, matchPlayersSeq)
      && UniquePairs(matchPlayers)
    }

    /** The three `CREATE TABLE IF NOT EXISTS` statements on a new database. */
    constructor ()
      ensures Valid()
      ensures players == [] && matches == [] && matchPlayers == []
      ensures playersSeq == 0 && matchesSeq == 0 && matchPlayersSeq == 0
    {
      players, matches, matchPlayers := [], [], [];
      playersSeq, matchesSeq, matchPlayersSeq := 0, 0, 0;
    }

    /** GET /api/players: `SELECT * FROM players`, in an order SQL leaves open. */
    function ListPlayers(): (rows: seq<Player>)
      reads this
      ensures multiset(rows) == multiset(players)
    {
      players
    }

    /** POST /api/players: no validation; the name, possibly NULL, is stored
        and echoed back with the new id. */
    method AddPlayer(name: Option<string>) returns (r: Reply)
      requires Valid()
      modifies this
      ensures Valid()
      ensures matches == old(matches) && matchPlayers == old(matchPlayers)
      ensures matchesSeq == old(matchesSeq) && matchPlayersSeq == old(matchPlayersSeq)
      ensures r.PlayerCreated? && r.name == name
      ensures r.id == old(playersSeq) + 1 && forall p :: p in old(players) ==> p.id < r.id
      ensures players == old(players) + [Player(r.id, name)] && playersSeq == r.id
    {
      var row := Player(playersSeq + 1, name);
      AppendNextId(players, PlayerId, playersSeq, row);
      players := players + [row];
      playersSeq := playersSeq + 1;
      r := PlayerCreated(row.id, name);
    }

    /** GET /api/matches: `SELECT * FROM matches ORDER BY date DESC`. */
    function ListMatches(): (rows: seq<Match>)
      reads this
      ensures multiset(rows) == multiset(matches)
      ensures SortedDesc(rows, MatchDate)
    {
      SortDesc(matches, MatchDate)
    }

    /** POST /api/matches: no validation; date and price are stored and echoed. */
    method AddMatch(date: Option<string>, price: Option<real>) returns (r: Reply)
      requires Valid()
      modifies this
      ensures Valid()
      ensures players == old(players) && matchPlayers == old(matchPlayers)
      ensures playersSeq == old(playersSeq) && matchPlayersSeq == old(matchPlayersSeq)
      ensures r.MatchCreated? && r.date == date && r.price == price
      ensures r.id == old(matchesSeq) + 1 && forall m :: m in old(matches) ==> m.id < r.id
      ensures matches == old(matches) + [Match(r.id, date, price)] && matchesSeq == r.id
    {
      var row := Match(matchesSeq + 1, date, price);
      AppendNextId(matches, MatchId, matchesSeq, row);
      matches := matches + [row];
      matchesSeq := matchesSeq + 1;
      r := MatchCreated(row.id, date, price);
    }

    /** POST /api/match/:match_id/add-player. */
    method AddPlayerToMatch(matchId: int, playerId: Option<int>) returns (r: Reply)
      requires Valid()
      modifies this
      ensures Valid()
      ensures players == old(players) && matches == old(matches)
      ensures playersSeq == old(playersSeq) && matchesSeq == old(matchesSeq)
      ensures r == Success
      ensures matchPlayers == InsertOrIgnore(old(matchPlayers), old(matchPlayersSeq) + 1, matchId, playerId)
      ensures HasPair(old(matchPlayers), matchId, playerId) ==>
        matchPlayers == old(matchPlayers) && matchPlayersSeq == old(matchPlayersSeq)
      ensures !HasPair(old(matchPlayers), matchId, playerId) ==>
        && matchPlayers == old(matchPlayers) + [MatchPlayer(matchPlayersSeq, matchId, playerId, 0)]
        && matchPlayersSeq == old(matchPlayersSeq) + 1
    {
      InsertOrIgnoreKeepsUnique(matchPlayers, matchPlayersSeq + 1, matchId, playerId);
      if !HasPair(matchPlayers, matchId, playerId) {
        var row := MatchPlayer(matchPlayersSeq + 1, matchId, playerId, 0);
        AppendNextId(matchPlayers, MatchPlayerId, matchPlayersSeq, row);
        matchPlayers := matchPlayers + [row];
        matchPlayersSeq := matchPlayersSeq + 1;
      }
      r := Success;
    }

    /** GET /api/match/:match_id/players: the inner join of the match's rows
        with the players they name. */
    function RosterFor(matchId: int): (r: seq<RosterEntry>)
      reads this
      ensures forall e :: e in r <==>
        exists mp, p :: mp in matchPlayers && p in players && mp.matchId == matchId && mp.playerId == Some(p.id) &&
          e == RosterEntry(p.id, p.name, mp.paid)
    {
      Roster(matchPlayers, players, matchId)
    }

    /** POST /api/match/:match_id/toggle-paid: update only; succeeds whether or
        not the pair has a row. */
    method TogglePaid(matchId: int, playerId: Option<int>, paid: bool) returns (r: Reply)
      requires Valid()
      modifies this
      ensures Valid()
      ensures players == old(players) && matches == old(matches)
      ensures playersSeq == old(playersSeq) && matchesSeq == old(matchesSeq) && matchPlayersSeq == old(matchPlayersSeq)
      ensures r == Success
      ensures matchPlayers == SetPaidWhere(old(matchPlayers), matchId, playerId, PaidFlag(paid))
    {
      SetPaidTouchesOnlyThePair(matchPlayers, matchId, playerId, PaidFlag(paid));
      var updated := SetPaidWhere(matchPlayers, matchId, playerId, PaidFlag(paid));
      assert AutoIncrementIds(updated, MatchPlayerId, matchPlayersSeq) by {
        assert forall i :: 0 <= i < |updated| ==> updated[i].id == matchPlayers[i].id;
      }
      matchPlayers := updated;
      r := Success;
    }

    /** Player ids are unique, so the roster has exactly one entry for each
        row of the match whose player exists. */
    lemma RosterForCount(matchId: int)
      requires Valid()
      ensures |RosterFor(matchId)| == Rostered(matchPlayers, players, matchId)
    {
      forall i, j | 0 <= i < j < |players| ensures players[i].id != players[j].id {
        AutoIncrementIdsDistinct(players, PlayerId, playersSeq, i, j);
      }
      RosterCount(matchPlayers, players, matchId);
    }
  }

  /** Player 1 added to match 1 twice gets one row; toggling player 2, who
      was never added, changes nothing; toggling player 1 sets the flag, and
      the roster shows it. */
  lemma AddTwiceThenToggleScenario()
    ensures InsertOrIgnore(InsertOrIgnore([], 1, 1, Some(1)), 2, 1, Some(1)) == [MatchPlayer(1, 1, Some(1), 0)]
    ensures SetPaidWhere([MatchPlayer(1, 1, Some(1), 0)], 1, Some(2), 1) == [MatchPlayer(1, 1, Some(1), 0)]
    ensures SetPaidWhere([MatchPlayer(1, 1, Some(1), 0)], 1, Some(1), 1) == [MatchPlayer(1, 1, Some(1), 1)]
    ensures Roster([MatchPlayer(1, 1, Some(1), 1)], [Player(1, Some("Ana"))], 1) == [RosterEntry(1, Some("Ana"), 1)]
  {
    var row := MatchPlayer(1, 1, Some(1), 0);
    assert InsertOrIgnore([], 1, 1, Some(1)) == [row];
    assert Selects([row][0], 1, Some(1));
  }
}
