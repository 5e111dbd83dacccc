# Game statistics store — a Dafny model

This project models the Stats Store of a personal game-statistics tracker:
the `GameStatsManager` class in `game_stats_manager.py`. It keeps one SQLite
table, `stats`, with rows `(id, game_name, date_played, score, comments)`,
and offers create, list, update and delete, plus a projection for the score
chart. Each method is one SQL statement. The model captures what the table
means, not how SQLite stores it:

- a finite map from id to row;
- the AUTOINCREMENT high-water mark (`nextId`, one more than the largest id
  ever handed out, as SQLite keeps it in `sqlite_sequence`), so an id freed
  by a delete is never handed out again.

Files:

- `collation.dfy` (module `Collation`): the text order that `ORDER BY
  date_played` applies to the `TEXT` column (SQLite's BINARY collation,
  modelled character by character), proved a total order. It also proves that
  on `YYYY-MM-DD` strings, the format the application's date field produces,
  this order is the calendar order.
- `stats_table.dfy` (module `StatsTable`): the table as a value. `Insert`,
  `Update` and `Delete` model the three SQL statements. `ListByDateDesc` and
  `ChartOf` model the two queries. The lemmas relate several calls:
  round trips through the listing, a second delete, idempotent update, and ids
  never reused over any sequence of calls (`Run`).
- `stats_store.dfy` (module `StatsStore`): the imperative side. `Database` is
  the SQLite file: whether the table exists, its rows, its counter.
  `GameStatsManager` holds a `Database`. Its methods change the file in place,
  and each postcondition ties the new table to the matching `StatsTable`
  function. The two query methods are functions that read the current state.

Behaviour worth knowing, as the code has it:

- `get_stats` and `get_stats_for_chart` sort on a `TEXT` column, so the order
  is string order. It is chronological only because the user interface writes
  ISO-8601 dates (`IsoDateOrder`, `ListedNewestFirst`). SQLite leaves the
  order of rows with equal dates open. The contracts therefore promise a
  sorted permutation and no tie-break. `SortedUnique` shows that this
  freedom is the only one. Breaking ties by id would make the listing
  deterministic; the code does not, and the model follows the code.
- `initialize_database` runs `CREATE TABLE IF NOT EXISTS`. On a store whose
  table exists it changes nothing, so it never deletes a row and never rewinds
  the id counter. The comment at `main.py:240` says the reset button "drops
  and recreates tables". The code does not do that, and the model follows the
  code: `InitializeDatabase` ensures `unchanged(db)`.
- The store does not check its inputs. An empty game name or a negative
  score is stored as given. The checks live in the user interface (the
  empty-name check at `main.py:126`, the 0..999999 spin box at
  `main.py:102`), so the model puts no precondition on them.
- Once the largest rowid (2^63 - 1) has been handed out, an AUTOINCREMENT
  insert fails with SQLITE_FULL. `Insert` returns `Full` in that case and
  leaves the table as it was.

## Model

| member | source | states |
|---|---|---|
| Collation.LexLe | game_stats_manager.py:37 | `a` sorts at or before `b` under SQLite's BINARY collation on the `TEXT` column `date_played` (the order used at lines 77 and 134): the first differing character decides, and a value that is a prefix of the other sorts first |
| Collation.LexLeTotal | game_stats_manager.py:77 | any two dates compare one way or the other under the column's text order |
| Collation.LexLeAntisymmetric | game_stats_manager.py:77 | two dates that each sort at or before the other are the same string |
| Collation.LexLeTransitive | game_stats_manager.py:77 | the text order is transitive, so a sorted listing is sorted pairwise |
| Collation.IsoDateOrder | main.py:122 | on `YYYY-MM-DD` strings the text order holds exactly when the first date is on or before the second in the calendar (year, then month, then day) |
| StatsTable.EmptyValid | game_stats_manager.py:33-41 | the freshly created table has no rows and a counter at which every later id is fresh |
| StatsTable.Insert | game_stats_manager.py:57-64 | the insert succeeds exactly while ids remain; the new id is at least the counter and above every stored id; the new row holds exactly the given fields; every old row is kept; the row count grows by one; on SQLITE_FULL nothing changes |
| StatsTable.Update | game_stats_manager.py:93-101 | reports true exactly when a row with the id exists; then only that row's four fields are replaced and its id is kept; the set of ids, the counter and every other row are unchanged, so an absent id creates no row |
| StatsTable.Delete | game_stats_manager.py:114-118 | reports true exactly when the row existed; afterwards no row has the id, every other row is unchanged, the count drops by one only if it existed, and the counter is not rewound |
| StatsTable.Rows | game_stats_manager.py:77-78 | the unsorted result set holds every row of the table exactly once and nothing else |
| StatsTable.InOrder | game_stats_manager.py:77 | whether `a` may come before `b` under `ORDER BY date_played DESC` (`desc`) or `ASC` (line 134); rows with equal dates may come in either order |
| StatsTable.InOrderReversed | game_stats_manager.py:131-135 | the ascending order of the chart query is the descending order of the listing read backwards |
| StatsTable.SortByDate | game_stats_manager.py:77 | `ORDER BY date_played` yields a permutation of its input that is sorted pairwise by the text order, in the requested direction |
| StatsTable.ListByDateDesc | game_stats_manager.py:77-80 | `get_stats` on a table: every row once, latest date first, as many entries as rows; empty for an empty table |
| StatsTable.Columns | game_stats_manager.py:139-141 | the three list comprehensions give columns as long as the result, and entry i of each column comes from result row i |
| StatsTable.ChartOf | game_stats_manager.py:131-142 | `get_stats_for_chart` on a table: three columns of the row count's length, dates non-decreasing, and the columns are the projection of one date-ascending ordering of all rows |
| StatsTable.SortedUnique | game_stats_manager.py:77 | two date-sorted orderings of the same rows with distinct dates are equal: ties are the only thing SQLite's order leaves open |
| StatsTable.ListingDetermined | game_stats_manager.py:77-80 | when all dates differ, any sorted listing of the table is the one given |
| StatsTable.ListedNewestFirst | game_stats_manager.py:77 | when every stored date is `YYYY-MM-DD`, the listing runs from the latest calendar date to the earliest |
| StatsTable.ListedIffStored | game_stats_manager.py:77-80 | a row appears in a listing exactly when the table stores it under its id |
| StatsTable.InsertThenListed | game_stats_manager.py:57-64 | after a successful insert, the next listing contains a row with the returned id and exactly the given fields |
| StatsTable.UpdateThenListed | game_stats_manager.py:93-101 | after updating an existing row, the listing holds the new values under the same id and no longer holds the old row |
| StatsTable.DeleteThenListed | game_stats_manager.py:114-118 | after a delete, no listed row carries the id and every other stored row is still listed |
| StatsTable.DeleteTwice | game_stats_manager.py:114-118 | an immediate second delete of the same id reports false and changes nothing |
| StatsTable.UpdateIdempotent | game_stats_manager.py:93-101 | repeating an update with the same values changes nothing more and reports the same result |
| StatsTable.InsertDeleteInsert | game_stats_manager.py:35 | deleting the row just added restores the old rows, yet the next insert gets a larger id than the deleted one |
| StatsTable.EmptyListsNothing | game_stats_manager.py:131-142 | an empty table lists nothing and gives three empty chart columns |
| StatsTable.ThreeRowsListedNewestFirst | game_stats_manager.py:77 | three rows with distinct dates are listed in exactly one order, latest first |
| StatsTable.ThreeRowsChartedOldestFirst | game_stats_manager.py:131-135 | the same three rows are charted in exactly one order, earliest first |
| StatsTable.ExampleInserts | game_stats_manager.py:57-64 | three inserts into a new table get the ids 1, 2 and 3 and store the given rows |
| StatsTable.OrderingExample | game_stats_manager.py:77 | rows dated 2024-01-01, 2024-03-01, 2024-02-01 are listed as 03-01, 02-01, 01-01 and charted as 01-01, 02-01, 03-01 |
| StatsTable.RunIdsIncrease | game_stats_manager.py:35 | over any sequence of calls the counter never goes down, each id handed out is at least the starting counter, and later inserts get strictly larger ids |
| StatsTable.IdsNeverReused | game_stats_manager.py:35 | after a row is deleted, no insert in any later sequence of calls returns its id or a smaller one |
| StatsStore.Database.Fresh | game_stats_manager.py:13-15 | a database file that does not hold the table yet |
| StatsStore.Database.Existing | game_stats_manager.py:13-15 | a database file that already holds the table with given rows and counter |
| StatsStore.Database.CreateTableIfNotExists | game_stats_manager.py:33-41 | creates an empty table when there is none; leaves an existing table, its rows and its counter, exactly as they were |
| StatsStore.GameStatsManager.constructor | game_stats_manager.py:13-15 | opening a file runs the table creation: afterwards the table exists, and rows and counter already in the file are kept |
| StatsStore.GameStatsManager.InitializeDatabase | game_stats_manager.py:26-49 | on an open store it changes nothing, so it is idempotent and never loses data |
| StatsStore.GameStatsManager.AddStat | game_stats_manager.py:51-69 | performs `Insert` in place: returns an id above every stored id and stores exactly the given row beside the old ones |
| StatsStore.GameStatsManager.GetStats | game_stats_manager.py:71-85 | every stored row once, latest date first |
| StatsStore.GameStatsManager.UpdateStat | game_stats_manager.py:87-106 | performs `Update` in place: true exactly when the id exists; when false the file is unchanged |
| StatsStore.GameStatsManager.DeleteStat | game_stats_manager.py:108-123 | performs `Delete` in place: true exactly when the id existed; afterwards it is gone |
| StatsStore.GameStatsManager.GetStatsForChart | game_stats_manager.py:125-147 | three columns of the row count's length, earliest date first, each index taken from one row |
| StatsStore.DeleteThenAddScenario | game_stats_manager.py:35 | on a new file, ids come out increasing, the deleted id is not handed out again, and a second delete of it reports false |

## Left out

- Connection handling (`get_connection`, `commit`, `close`) and the `db_file` path: I/O through a library outside the model. The model has one `Database` object per file. The `finally: conn.close()` path that would fail on an unbound `conn` when connecting raises is not modelled.
- `sqlite3.Error` on storage failure, including NOT NULL violations: storage failures are outside the model. Dafny strings are never null, so the NOT NULL columns hold by construction. SQLITE_FULL on rowid exhaustion is the one failure modelled (`Insert` returns `Full`).
- Logging (module-level setup and the call in every method): process-wide side effects with no bearing on the table.
- Scores outside the signed 64-bit range, which the SQLite driver rejects before inserting: `score` is an unbounded integer here.
- NULL comments: the column is nullable, but every caller passes a string (default `""`), so `comments` is a string.
- Text encoding: SQLite compares the UTF-8 bytes; the model compares characters (Unicode scalar values), which gives the same order.
- The order among rows with equal `date_played`: SQLite does not fix it. `SortByDate` picks one, and no contract relies on which.
- The user interface in `main.py` (widgets, message boxes, style sheets, plotting): outside the store. Its input checks are described above.
