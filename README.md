# Match attendance tracker: a Dafny model of its two SQLite-backed servers

The tracker records players, scheduled matches, and which player attended
(and paid for) which match. The repository has two Express servers, each with
its own SQLite schema.

- `server.js` is modelled by module `AttendanceApi` in `attendance_api.dfy`.
  Its tables are `players(id, name, phone, balance)`, `matches(id, date)` and
  `attendance(id, match_id, player_id, paid)`. The attendance table has no
  UNIQUE constraint. POST `/api/attendance` reads the row for the
  (match, player) pair first. It then updates that row's `paid` or inserts a
  new row. This read-then-write is the only thing that keeps one row per pair.
- `Server.js` is modelled by module `MatchPlayersApi` in
  `match_players_api.dfy`. Its tables are `players(id, name)`,
  `matches(id, date, price)` and `match_players(..., UNIQUE(match_id, player_id))`.
  Players join a match through INSERT OR IGNORE. `toggle-paid` is a plain
  UPDATE, which does nothing when the pair has no row. No handler checks its
  input, so a missing field is stored as NULL.

Each database is a `Store` class. It holds one `seq` of rows per table and one
sqlite_sequence counter per table. Every HTTP handler is a method that changes
those fields, or a function that reads them. `Store.Valid()` is the object
invariant. It requires AUTOINCREMENT ids: positive, at most the counter, and
increasing in insertion order. It also requires one row per (match, player)
pair. Each state-changing handler is tied to a pure function of the old
table: `Upsert`, `InsertOrIgnore` or `SetPaidWhere`. Lemmas about those
functions state what holds across several requests: the uniqueness
invariant, idempotence and last-write-wins.

Two modules are shared by both servers:

- `Values` (`values.dfy`) holds the NULL/undefined `Option`, the JavaScript
  falsiness of request fields, the `paid ? 1 : 0` flag and the AUTOINCREMENT
  id rule.
- `TextOrder` (`text_order.dfy`) models `ORDER BY date DESC` as SQLite runs it.
  NULL is the smallest value. Text uses the BINARY collation: code point by
  code point, with a prefix sorting first, which is also UTF-8 byte order.
  The sort (`SortDesc`) is an insertion sort proved to return a permutation
  in descending order.

Handler inputs arrive already parsed:

- a text field is `Option<string>`, where `None` is undefined or null;
- an id in a server.js body is `Option<int>`;
- `paid` is a `bool` that stands for the JavaScript truthiness of the value sent;
- a `:match_id` path parameter is an `int`, because SQLite converts numeric
  text to an integer when it compares it with an INTEGER column.

Where the code and the design description of this tracker disagree, the model
follows the code:

- GET `/api/attendance/:match_id` in server.js is an inner join. It lists only
  players who have an attendance row for the match. It is not a full roster
  with `paid = false` for everyone else. `AttendanceApi.InsertThenUpdateScenario`
  shows this with two players, only one of whom has a row.
- POST `/api/players` in server.js answers `{id}` and not `{id, name}`.
- server.js's attendance table has no UNIQUE constraint. Only the handler
  keeps pairs unique.
- Neither server seeds default players.

## Model

| member | source | states |
|---|---|---|
| `Values.PaidFlag` | server.js:110 | the stored flag is 0 or 1, and it is 1 exactly when `paid` is truthy |
| `Values.AppendNextId` | server.js:25-30 | inserting a row whose id is the sequence value plus one keeps the AUTOINCREMENT rule, and the new id is larger than every id already in the table |
| `Values.AutoIncrementIdsDistinct` | Server.js:14-17 | two rows of an AUTOINCREMENT table never share an id |
| `TextOrder.LexLeTotal` | server.js:77 | any two date strings are comparable under the BINARY collation used by `ORDER BY date` |
| `TextOrder.LexLeReflexive` | server.js:77 | every date string is at most itself under the BINARY collation |
| `TextOrder.LexLeTransitive` | server.js:77 | the BINARY collation is transitive |
| `TextOrder.LexLeAntisymmetric` | server.js:77 | two strings that are each at most the other are equal, so the BINARY collation is a total order |
| `TextOrder.SortDesc` | server.js:77 | `ORDER BY ... DESC` returns exactly the table's rows (as a multiset), each row's key at least the key of every later row |
| `TextOrder.LargerKeyListedFirst` | server.js:77 | in a descending listing, a row with a strictly larger date is listed before a row with a smaller date |
| `TextOrder.IsoDatesListedNewestFirst` | server.js:77 | "2024-05-01" is listed before "2024-01-10" |
| `TextOrder.NonIsoDatesListedByText` | Server.js:48 | the order is string order, not calendar order: "9/1/2024" is listed before "10/1/2024" |
| `TextOrder.NullKeyListedLast` | Server.js:47-49 | a match stored with a NULL date (possible because Server.js:51-53 does not validate) is listed after every match that has a date |
| `AttendanceApi.FindRow` | server.js:100-103 | the lookup returns the first row for (match_id, player_id), and returns none exactly when no row has that pair |
| `AttendanceApi.UpsertEffect` | server.js:106-126 | with one row per pair, a present pair changes only that row's paid and keeps the row count and all other rows; an absent pair appends exactly one row (match_id, player_id, paid) |
| `AttendanceApi.UpsertKeepsOneRowPerPair` | server.js:100-126 | the attendance handler keeps "at most one row per (match_id, player_id)" |
| `AttendanceApi.UpsertLastWriteWins` | server.js:100-126 | after two posts on one pair the table has exactly one row for it, that row's paid is the last value sent, every other row is unchanged, and the table has grown by at most one row |
| `AttendanceApi.JoinRow` | server.js:137 | joining one attendance row with players yields one entry per player whose id equals the row's player_id, carrying that player's name and phone and the row's id and paid |
| `AttendanceApi.Join` | server.js:134-139 | an entry is in the join exactly when some attendance row of the match and some player with that row's player_id produce it |
| `AttendanceApi.JoinRowCount` | server.js:137 | with distinct player ids, one attendance row joins to one entry if its player exists and to none otherwise |
| `AttendanceApi.JoinCount` | server.js:134-143 | with distinct player ids, the view has as many entries as the match has attendance rows whose player exists |
| `AttendanceApi.InsertThenUpdateScenario` | server.js:95-145 | on match 1, the first post for player 1 inserts a row and the second updates it; with players Ana and Bo, the view lists only Ana |
| `AttendanceApi.Store.constructor` | server.js:23-50 | a new database has three empty tables and sequence counters at 0, and satisfies the invariant |
| `AttendanceApi.Store.ListPlayers` | server.js:55-62 | GET /api/players returns every player row, as a multiset |
| `AttendanceApi.Store.AddPlayer` | server.js:65-73 | a falsy name gives "Name is required" and leaves the tables unchanged; otherwise exactly one row (name, phone, balance 0) is appended, and its id, returned, is the next sequence value and larger than every earlier player id |
| `AttendanceApi.Store.ListMatches` | server.js:76-81 | GET /api/matches returns every match row, in descending string order of date |
| `AttendanceApi.Store.AddMatch` | server.js:84-92 | a falsy date gives "Date is required" and leaves the tables unchanged; otherwise exactly one row with that date is appended, and its id, returned, is larger than every earlier match id |
| `AttendanceApi.Store.MarkAttendance` | server.js:95-129 | a falsy match_id or player_id (None or 0) gives "match_id and player_id required" and leaves the attendance table unchanged; otherwise the table becomes the upsert of the pair, with `{updated}` when the pair had a row and `{inserted}` when it did not; the players and matches tables are unchanged; one row per pair is preserved |
| `AttendanceApi.Store.AttendanceFor` | server.js:132-145 | the view for match m contains exactly the entries (a.id, a.paid, p.id, p.name, p.phone) of attendance rows a with match_id m whose player_id is the id of an existing player p; players without a row do not appear |
| `AttendanceApi.Store.AttendanceForCount` | server.js:134-143 | in a valid store, the view has one entry per attendance row of the match whose player exists |
| `MatchPlayersApi.InsertOrIgnoreKeepsUnique` | Server.js:25-31 | INSERT OR IGNORE never makes two rows with the same non-NULL (match_id, player_id) |
| `MatchPlayersApi.InsertOrIgnoreIdempotent` | Server.js:59-66 | adding the same player to the same match twice leaves the table as adding it once does |
| `MatchPlayersApi.NullPlayerAlwaysInserted` | Server.js:61-62 | a request without player_id stores NULL, which UNIQUE never matches, so every such call adds a row |
| `MatchPlayersApi.SetPaidWhere` | Server.js:84-88 | the UPDATE keeps the row count, sets paid on every row with that match_id and (non-NULL) player_id, and leaves every other row as it was |
| `MatchPlayersApi.SetPaidAbsentIsNoOp` | Server.js:81-92 | toggling a pair that has no row leaves the table unchanged |
| `MatchPlayersApi.SetPaidTouchesOnlyThePair` | Server.js:84-88 | under UNIQUE, toggling keeps UNIQUE, sets the pair's row to the new flag and changes no other row |
| `MatchPlayersApi.SetPaidLastWriteWins` | Server.js:81-92 | two toggles of the same pair leave the table as the last toggle alone would |
| `MatchPlayersApi.RosterRow` | Server.js:73 | joining one match_players row with players yields one (p.id, p.name, mp.paid) entry per player whose id equals the row's non-NULL player_id |
| `MatchPlayersApi.Roster` | Server.js:70-75 | an entry is in the roster exactly when some row of the match and some player with that row's player_id produce it |
| `MatchPlayersApi.RosterRowCount` | Server.js:73 | with distinct player ids, one row joins to one entry if its player exists and to none otherwise |
| `MatchPlayersApi.RosterCount` | Server.js:68-78 | with distinct player ids, the roster has K entries when K rows of the match name an existing player |
| `MatchPlayersApi.AddTwiceThenToggleScenario` | Server.js:59-92 | adding player 1 twice gives one row; toggling player 2, who has no row, changes nothing; toggling player 1 sets paid and the roster shows it |
| `MatchPlayersApi.Store.constructor` | Server.js:13-32 | a new database has three empty tables and sequence counters at 0, and satisfies the invariant (including UNIQUE) |
| `MatchPlayersApi.Store.ListPlayers` | Server.js:35-37 | GET /api/players returns every player row, as a multiset |
| `MatchPlayersApi.Store.AddPlayer` | Server.js:39-45 | without validation, exactly one row with the given (possibly NULL) name is appended; the reply carries the new id, larger than every earlier player id, and echoes the name |
| `MatchPlayersApi.Store.ListMatches` | Server.js:47-49 | GET /api/matches returns every match row, in descending string order of date, with NULL dates last |
| `MatchPlayersApi.Store.AddMatch` | Server.js:51-57 | exactly one row (date, price) is appended; the reply is `{id, date, price}` with an id larger than every earlier match id |
| `MatchPlayersApi.Store.AddPlayerToMatch` | Server.js:59-66 | always `{success}`; when the pair is present the table is unchanged; when it is absent exactly one row (match_id, player_id, paid 0) with the next id is appended; UNIQUE is preserved |
| `MatchPlayersApi.Store.RosterFor` | Server.js:68-79 | the roster for match m contains exactly the entries (p.id, p.name, mp.paid) of rows mp with match_id m whose player_id is the id of an existing player p |
| `MatchPlayersApi.Store.TogglePaid` | Server.js:81-92 | always `{success}`; the table becomes the UPDATE of the pair (only that row's paid, or no change when absent); the other tables and all counters are unchanged; UNIQUE is preserved |
| `MatchPlayersApi.Store.RosterForCount` | Server.js:68-78 | in a valid store, the roster has one entry per row of the match whose player exists |

## Left out

- Express routing, middleware and JSON body parsing (server.js:9-11, Server.js:8-10). Handlers take already-parsed values. JSON values of other types are not modelled: a number where a name is expected, a string or a fraction where an id is expected, or a non-numeric `:match_id`.
- Storage errors and the HTTP 500 replies. sqlite3 connection set-up, callbacks and `db.serialize` are not modelled either. Server.js:36 and Server.js:48 ignore `err` altogether.
- The AUTOINCREMENT upper limit (the largest 64-bit rowid), past which SQLite fails the insert with a storage error.
- `MatchPlayersApi.Store.AddPlayerToMatch`: an ignored INSERT OR IGNORE leaves the sequence counter unchanged in the model. SQLite may still use up a sequence value in that case. That affects only gaps between later ids, not the tables' contents.
- The order of rows from `SELECT *` and from the joins, which have no ORDER BY, and the order among matches with equal dates. SQL leaves these unspecified. The model returns table order, and its contracts speak only of membership, multisets and counts.
- Which row `db.get` returns when several rows have the same pair (server.js:100-103). The model takes the first in insertion order. `Store.Valid()` rules out such duplicates for a database created and written only by these handlers.
- The race between concurrent check-then-insert requests (server.js:100-126). The model is sequential.
- Foreign-key enforcement (server.js:46-47). SQLite does not enforce it by default, and no handler relies on it.
- Static file serving, `res.sendFile`, `app.listen` and the PORT variable (server.js:147-149, Server.js:95-100).
- public/script.js: DOM rendering, `fetch` and `alert`. It is a client of these handlers.
- Seeding of default players, a full-roster (left join) attendance view, and a merged schema with both phone/balance and price. None of them exists in the code.
