/** The server.js variant of the tracker. Its database has three tables:
      players(id, name, phone, balance), matches(id, date) and
      attendance(id, match_id, player_id, paid).
    The attendance table has no UNIQUE constraint on (match_id, player_id);
    POST /api/attendance keeps one row per pair by reading first and then
    updating the row it found or inserting a new one. */
module AttendanceApi {
  import opened Values
  import opened TextOrder

  datatype Player = Player(id: int, name: string, phone: Option<string>, balance: real)
  datatype Match = Match(id: int, date: string)
  /** `paid` holds the stored integer, 0 or 1. */
  datatype Attendance = Attendance(id: int, matchId: int, playerId: int, paid: int)

  /** One row of GET /api/attendance/:match_id:
      `a.id, a.paid, p.id AS player_id, p.name, p.phone`. */
  datatype AttendanceEntry = AttendanceEntry(id: int, paid: int, playerId: int, name: string, phone: Option<string>)

  /** The JSON bodies the handlers answer with: `{error}` with status 400,
      `{id}`, `{inserted: true}` and `{updated: true}`. */
  datatype Reply = BadRequest(error: string) | Created(id: int) | Inserted | Updated

  const NameRequired := "Name is required"
  const DateRequired := "Date is required"
  const IdsRequired := "match_id and player_id required"

  function PlayerId(p: Player): int { p.id }
  function MatchId(m: Match): int { m.id }
  function AttendanceId(a: Attendance): int { a.id }
  function MatchDate(m: Match): Option<string> { Some(m.date) }

  predicate IsFor(a: Attendance, matchId: int, playerId: int) {
    a.matchId == matchId && a.playerId == playerId
  }

  ghost predicate HasRow(rows: seq<Attendance>, matchId: int, playerId: int) {
    exists i :: 0 <= i < |rows| && IsFor(rows[i], matchId, playerId)
  }

  /** The invariant the attendance handler is there to keep. */
  ghost predicate OneRowPerPair(rows: seq<Attendance>) {
    forall i, j :: 0 <= i < j < |rows| && rows[i].matchId == rows[j].matchId ==> rows[i].playerId != rows[j].playerId
  }

  ghost predicate DistinctPlayerIds(players: seq<Player>) {
    forall i, j :: 0 <= i < j < |players| ==> players[i].id != players[j].id
  }

  /** `SELECT * FROM attendance WHERE match_id = ? AND player_id = ?` read with
      `db.get`: the position of the first matching row, if any. */
  function FindRow(rows: seq<Attendance>, matchId: int, playerId: int): (k: Option<nat>)
    ensures k.Some? ==> k.value < |rows| && IsFor(rows[k.value], matchId, playerId)
    ensures k.Some? ==> forall i :: 0 <= i < k.value ==> !IsFor(rows[i], matchId, playerId)
    ensures k.None? <==> !HasRow(rows, matchId, playerId)
    decreases |rows|
  {
    if rows == [] then
      None
    else if IsFor(rows[0], matchId, playerId) then
      Some(0)
    else
      match FindRow(rows[1..], matchId, playerId)
      case None =>
        assert forall i :: 1 <= i < |rows| ==> rows[i] == rows[1..][i - 1];
        None
      case Some(j) =>
        assert rows[j + 1] == rows[1..][j];
        assert forall i :: 1 <= i <= j ==> rows[i] == rows[1..][i - 1];
        Some(j + 1)
  }

  /** The table after POST /api/attendance with valid ids: the row found for
      the pair gets the new flag, or a new row with the next id is appended. */
  function Upsert(rows: seq<Attendance>, newId: int, matchId: int, playerId: int, flag: int): seq<Attendance> {
    match FindRow(rows, matchId, playerId)
    case Some(k) => rows[k := rows[k].(paid := flag)]
    case None => rows + [Attendance(newId, matchId, playerId, flag)]
  }

  /** With one row per pair, an upsert on a present pair changes that row's
      flag and nothing else; on an absent pair it appends exactly one row. */
  lemma UpsertEffect(rows: seq<Attendance>, newId: int, matchId: int, playerId: int, flag: int)
    requires OneRowPerPair(rows)
    ensures HasRow(rows, matchId, playerId) ==>
      var r := Upsert(rows, newId, matchId, playerId, flag);
      && |r| == |rows|
      && forall i :: 0 <= i < |rows| ==>
           r[i] == if IsFor(rows[i], matchId, playerId) then rows[i].(paid := flag) else rows[i]
    ensures !HasRow(rows, matchId, playerId) ==>
      Upsert(rows, newId, matchId, playerId, flag) == rows + [Attendance(newId, matchId, playerId, flag)]
  {
    var found := FindRow(rows, matchId, playerId);
    if found.Some? {
      var k := found.value;
      assert forall i :: 0 <= i < |rows| && i != k ==> !IsFor(rows[i], matchId, playerId);
    }
  }

  lemma UpsertKeepsOneRowPerPair(rows: seq<Attendance>, newId: int, matchId: int, playerId: int, flag: int)
    requires OneRowPerPair(rows)
    ensures OneRowPerPair(Upsert(rows, newId, matchId, playerId, flag))
  {
    var r := Upsert(rows, newId, matchId, playerId, flag);
    UpsertEffect(rows, newId, matchId, playerId, flag);
    if !HasRow(rows, matchId, playerId) {
      forall i, j | 0 <= i < j < |r| && r[i].matchId == r[j].matchId
        ensures r[i].playerId != r[j].playerId
      {
        if j == |rows| {
          assert r[i] == rows[i] && !IsFor(rows[i], matchId, playerId);
        } else {
          assert r[i] == rows[i] && r[j] == rows[j];
        }
      }
    }
  }

  /** Two POSTs on the same pair leave exactly one row for it, whose flag is
      the one given last; every other row is as it was, and the table has grown
      by one row at most. */
  lemma {:induction false} UpsertLastWriteWins(rows: seq<Attendance>, id1: int, id2: int, matchId: int, playerId: int, flag1: int, flag2: int)
    requires OneRowPerPair(rows)
    ensures
      var r := Upsert(Upsert(rows, id1, matchId, playerId, flag1), id2, matchId, playerId, flag2);
      && OneRowPerPair(r)
      && HasRow(r, matchId, playerId)
      && (forall i :: 0 <= i < |r| && IsFor(r[i], matchId, playerId) ==> r[i].paid == flag2)
      && (forall i :: 0 <= i < |rows| && !IsFor(rows[i], matchId, playerId) ==> r[i] == rows[i])
      && |r| == |rows| + (if HasRow(rows, matchId, playerId) then 0 else 1)
  {
    var once := Upsert(rows, id1, matchId, playerId, flag1);
    UpsertEffect(rows, id1, matchId, playerId, flag1);
    UpsertKeepsOneRowPerPair(rows, id1, matchId, playerId, flag1);
    if HasRow(rows, matchId, playerId) {
      var k :| 0 <= k < |rows| && IsFor(rows[k], matchId, playerId);
      assert IsFor(once[k], matchId, playerId);
    } else {
      assert IsFor(once[|rows|], matchId, playerId);
    }
    var twice := Upsert(once, id2, matchId, playerId, flag2);
    UpsertEffect(once, id2, matchId, playerId, flag2);
    UpsertKeepsOneRowPerPair(once, id2, matchId, playerId, flag2);
    var k :| 0 <= k < |once| && IsFor(once[k], matchId, playerId);
    assert IsFor(twice[k], matchId, playerId);
  }

  /** The entries that joining attendance row `a` with the players table yields. */
  function JoinRow(a: Attendance, players: seq<Player>): (r: seq<AttendanceEntry>)
    ensures forall e :: e in r <==>
      exists p :: p in players && p.id == a.playerId &&
        e == AttendanceEntry(a.id, a.paid, p.id, p.name, p.phone)
    decreases |players|
  {
    if players == [] then
      []
    else
      var p := players[0];
      assert forall q :: q in players <==> q == p || q in players[1..];
      (if p.id == a.playerId then [AttendanceEntry(a.id, a.paid, p.id, p.name, p.phone)] else [])
        + JoinRow(a, players[1..])
  }

  /** `FROM attendance a JOIN players p ON a.player_id = p.id WHERE a.match_id = ?`:
      one entry for each attendance row of the match and each player it names. */
  function Join(rows: seq<Attendance>, players: seq<Player>, matchId: int): (r: seq<AttendanceEntry>)
    ensures forall e :: e in r <==>
      exists a, p :: a in rows && p in players && a.matchId == matchId && a.playerId == p.id &&
        e == AttendanceEntry(a.id, a.paid, p.id, p.name, p.phone)
    decreases |rows|
  {
    if rows == [] then
      []
    else
      var a := rows[0];
      assert forall b :: b in rows <==> b == a || b in rows[1..];
      (if a.matchId == matchId then JoinRow(a, players) else []) + Join(rows[1..], players, matchId)
  }

  /** The number of attendance rows of the match whose player exists. */
  ghost function Joinable(rows: seq<Attendance>, players: seq<Player>, matchId: int): nat
    decreases |rows|
  {
    if rows == [] then
      0
    else
      var here := rows[0].matchId == matchId && exists p :: p in players && p.id == rows[0].playerId;
      (if here then 1 else 0) + Joinable(rows[1..], players, matchId)
  }

  lemma {:induction false} JoinRowCount(a: Attendance, players: seq<Player>)
    requires DistinctPlayerIds(players)
    ensures |JoinRow(a, players)| == if exists p :: p in players && p.id == a.playerId then 1 else 0
    decreases |players|
  {
    if players != [] {
      var tail := players[1..];
      assert DistinctPlayerIds(tail) by {
        forall i, j | 0 <= i < j < |tail| ensures tail[i].id != tail[j].id {
          assert tail[i] == players[i + 1] && tail[j] == players[j + 1];
        }
      }
      JoinRowCount(a, tail);
      if players[0].id == a.playerId {
        forall q | q in tail ensures q.id != a.playerId {
          var j :| 0 <= j < |tail| && tail[j] == q;
          assert players[j + 1] == q;
        }
      }
      assert forall q :: q in players <==> q == players[0] || q in tail;
    }
  }

  /** With distinct player ids the view has exactly one entry per attendance row
      of the match whose player exists. */
  lemma {:induction false} JoinCount(rows: seq<Attendance>, players: seq<Player>, matchId: int)
    requires DistinctPlayerIds(players)
    ensures |Join(rows, players, matchId)| == Joinable(rows, players, matchId)
    decreases |rows|
  {
    if rows != [] {
      JoinRowCount(rows[0], players);
      JoinCount(rows[1..], players, matchId);
    }
  }

  /** The shared database of server.js. Each `*Seq` field is the table's
      sqlite_sequence value, the last AUTOINCREMENT id handed out. */
  class Store {
    var players: seq<Player>
    var matches: seq<Match>
    var attendance: seq<Attendance>
    var playersSeq: int
    var matchesSeq: int
    var attendanceSeq: int

    ghost predicate Valid()
      reads this
    {
      && AutoIncrementIds(players, PlayerId, playersSeq)
      && AutoIncrementIds(matches, MatchId, matchesSeq)
      && AutoIncrementIds(attendance, AttendanceId, attendanceSeq)
      && OneRowPerPair(attendance)
    }

    /** The three `CREATE TABLE IF NOT EXISTS` statements on a new database. */
    constructor ()
      ensures Valid()
      ensures players == [] && matches == [] && attendance == []
      ensures playersSeq == 0 && matchesSeq == 0 && attendanceSeq == 0
    {
      players, matches, attendance := [], [], [];
      playersSeq, matchesSeq, attendanceSeq := 0, 0, 0;
    }

    /** GET /api/players: `SELECT * FROM players`, in an order SQL leaves open. */
    function ListPlayers(): (rows: seq<Player>)
      reads this
      ensures multiset(rows) == multiset(players)
    {
      players
    }

    /** POST /api/players. */
    method AddPlayer(name: Option<string>, phone: Option<string>) returns (r: Reply)
      requires Valid()
      modifies this
      ensures Valid()
      ensures matches == old(matches) && attendance == old(attendance)
      ensures matchesSeq == old(matchesSeq) && attendanceSeq == old(attendanceSeq)
      ensures FalsyText(name) ==>
        r == BadRequest(NameRequired) && players == old(players) && playersSeq == old(playersSeq)
      ensures !FalsyText(name) ==>
        && r.Created?
        && r.id == old(playersSeq) + 1
        && (forall p :: p in old(players) ==> p.id < r.id)
        && players == old(players) + [Player(r.id, name.value, phone, 0.0)]
        && playersSeq == r.id
    {
      if FalsyText(name) {
        return BadRequest(NameRequired);
      }
      var row := Player(playersSeq + 1, name.value, phone, 0.0);
      AppendNextId(players, PlayerId, playersSeq, row);
      players := players + [row];
      playersSeq := playersSeq + 1;
      r := Created(row.id);
    }

    /** GET /api/matches: `SELECT * FROM matches ORDER BY date DESC`. */
    function ListMatches(): (rows: seq<Match>)
      reads this
      ensures multiset(rows) == multiset(matches)
      ensures SortedDesc(rows, MatchDate)
    {
      SortDesc(matches, MatchDate)
    }

    /** POST /api/matches. */
    method AddMatch(date: Option<string>) returns (r: Reply)
      requires Valid()
      modifies this
      ensures Valid()
      ensures players == old(players) && attendance == old(attendance)
      ensures playersSeq == old(playersSeq) && attendanceSeq == old(attendanceSeq)
      ensures FalsyText(date) ==>
        r == BadRequest(DateRequired) && matches == old(matches) && matchesSeq == old(matchesSeq)
      ensures !FalsyText(date) ==>
        && r.Created?
        && r.id == old(matchesSeq) + 1
        && (forall m :: m in old(matches) ==> m.id < r.id)
        && matches == old(matches) + [Match(r.id, date.value)]
        && matchesSeq == r.id
    {
      if FalsyText(date) {
        return BadRequest(DateRequired);
      }
      var row := Match(matchesSeq + 1, date.value);
      AppendNextId(matches, MatchId, matchesSeq, row);
      matches := matches + [row];
      matchesSeq := matchesSeq + 1;
      r := Created(row.id);
    }

    /** POST /api/attendance: check the ids, look the pair up, then update the
        row found or insert a new one. */
    method MarkAttendance(matchId: Option<int>, playerId: Option<int>, paid: bool) returns (r: Reply)
      requires Valid()
      modifies this
      ensures Valid()
      ensures players == old(players) && matches == old(matches)
      ensures playersSeq == old(playersSeq) && matchesSeq == old(matchesSeq)
      ensures FalsyId(matchId) || FalsyId(playerId) ==>
        r == BadRequest(IdsRequired) && attendance == old(attendance) && attendanceSeq == old(attendanceSeq)
      ensures !FalsyId(matchId) && !FalsyId(playerId) ==>
        && r == (if HasRow(old(attendance), matchId.value, playerId.value) then Updated else Inserted)
        && attendance == Upsert(old(attendance), old(attendanceSeq) + 1, matchId.value, playerId.value, PaidFlag(paid))
        && attendanceSeq == old(attendanceSeq) + (if r == Inserted then 1 else 0)
    {
      if FalsyId(matchId) || FalsyId(playerId) {
        return BadRequest(IdsRequired);
      }
      var m, p, flag := matchId.value, playerId.value, PaidFlag(paid);
      UpsertKeepsOneRowPerPair(attendance, attendanceSeq + 1, m, p, flag);
      var found := FindRow(attendance, m, p);
      if found.Some? {
        // `UPDATE attendance SET paid = ? WHERE id = ?` with the id of the row
        // found; ids are unique, so that is the row at this position.
        var k := found.value;
        attendance := attendance[k := attendance[k].(paid := flag)];
        r := Updated;
      } else {
        var row := Attendance(attendanceSeq + 1, m, p, flag);
        AppendNextId(attendance, AttendanceId, attendanceSeq, row);
        attendance := attendance + [row];
        attendanceSeq := attendanceSeq + 1;
        r := Inserted;
      }
    }

    /** GET /api/attendance/:match_id: the inner join of the match's attendance
        rows with the players they name. Players without a row are absent. */
    function AttendanceFor(matchId: int): (r: seq<AttendanceEntry>)
      reads this
      ensures forall e :: e in r <==>
        exists a, p :: a in attendance && p in players && a.matchId == matchId && a.playerId == p.id &&
          e == AttendanceEntry(a.id, a.paid, p.id, p.name, p.phone)
    {
      Join(attendance, players, matchId)
    }

    /** Player ids are unique, so the view has exactly one entry for each
        attendance row of the match whose player exists. */
    lemma AttendanceForCount(matchId: int)
      requires Valid()
      ensures |AttendanceFor(matchId)| == Joinable(attendance, players, matchId)
    {
      forall i, j | 0 <= i < j < |players| ensures players[i].id != players[j].id {
        AutoIncrementIdsDistinct(players, PlayerId, playersSeq, i, j);
      }
      JoinCount(attendance, players, matchId);
    }
  }

  /** Two attendance posts for player 1 of match 1 on a table that has no row
      yet: the first inserts, the second updates that row, and with players
      Ana (1) and Bo (2) the view lists only Ana, the player who has a row. */
  lemma InsertThenUpdateScenario()
    ensures Upsert([], 1, 1, 1, 1) == [Attendance(1, 1, 1, 1)]
    ensures Upsert([Attendance(1, 1, 1, 1)], 2, 1, 1, 0) == [Attendance(1, 1, 1, 0)]
    ensures Join([Attendance(1, 1, 1, 0)], [Player(1, "Ana", None, 0.0), Player(2, "Bo", None, 0.0)], 1)
         == [AttendanceEntry(1, 0, 1, "Ana", None)]
  {
    assert IsFor(Attendance(1, 1, 1, 1), 1, 1);
    assert JoinRow(Attendance(1, 1, 1, 0), [Player(2, "Bo", None, 0.0)]) == [];
  }
}
