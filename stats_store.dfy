/**
 `GameStatsManager` and the SQLite file it works on. Each method issues one
 SQL statement, modelled as an in-place change of the file's table; the
 method's postcondition ties the new table to the corresponding function of
 StatsTable, whose properties are proved there.
 */
module StatsStore {
  import opened Collation
  import opened StatsTable

  /** The database file at `db_file`: whether the `stats` table exists, its
      rows, and the AUTOINCREMENT counter SQLite keeps beside it. */
  class Database {
    var hasTable: bool
    var rows: map<int, Stat>
    var nextId: int

    /** The table as a value. */
    function State(): Table
      reads this
    {
      Table(rows, nextId)
    }

    ghost predicate Valid()
      reads this
    {
      StatsTable.Valid(State()) && (!hasTable ==> State() == Empty)
    }

    /** A file without the `stats` table, as when `db_file` does not exist yet. */
    constructor Fresh()
      ensures Valid() && !hasTable
    {
      hasTable, rows, nextId := false, map[], 1;
    }

    /** A file that already holds the table with the given contents. */
    constructor Existing(t: Table)
      requires StatsTable.Valid(t)
      ensures Valid() && hasTable && State() == t
    {
      hasTable, rows, nextId := true, t.rows, t.nextId;
    }

    /** `CREATE TABLE IF NOT EXISTS stats (...)`: makes an empty table when
        there is none, and leaves an existing one, rows and counter, alone. */
    method CreateTableIfNotExists()
      requires Valid()
      modifies this
      ensures Valid() && hasTable
      ensures old(hasTable) ==> unchanged(this)
      ensures !old(hasTable) ==> State() == Empty
    {
      if !hasTable {
        hasTable := true;
        rows, nextId := map[], 1;
      }
    }
  }

  class GameStatsManager {
    const db: Database

    /** The table exists once the manager is constructed. */
    ghost predicate Valid()
      reads this, db
    {
      db.Valid() && db.hasTable
    }

    /** `GameStatsManager(db_file)`: opens the file and runs
        `initialize_database`, which keeps whatever the file already holds. */
    constructor (file: Database)
      requires file.Valid()
      modifies file
      ensures db == file && Valid()
      ensures old(file.hasTable) ==> file.State() == old(file.State())
      ensures !old(file.hasTable) ==> file.State() == Empty
    {
      db := file;
      new;
      file.CreateTableIfNotExists();
    }

    /** `initialize_database`: on a manager, whose table exists, it changes
        nothing, so calling it again (the UI's "reset" button) deletes no row
        and does not rewind the id counter. */
    method InitializeDatabase()
      requires Valid()
      modifies db
      ensures Valid()
      ensures unchanged(db)
    {
      db.CreateTableIfNotExists();
    }

    /** `add_stat`: inserts a row under a fresh id and returns the id. */
    method AddStat(gameName: string, datePlayed: string, score: int, comments: string := "") returns (r: AddResult)
      requires Valid()
      modifies db
      ensures Valid()
      ensures (db.State(), r) == Insert(old(db.State()), gameName, datePlayed, score, comments)
      ensures r.Added? ==> r.id !in old(db.rows) && (forall k :: k in old(db.rows) ==> k < r.id)
      ensures r.Added? ==> db.rows == old(db.rows)[r.id := Stat(r.id, gameName, datePlayed, score, comments)]
    {
      if db.nextId <= MaxRowId {
        var id := db.nextId;
        db.rows := db.rows[id := Stat(id, gameName, datePlayed, score, comments)];
        db.nextId := id + 1;
        r := Added(id);
      } else {
        r := Full;
      }
    }

    /** `get_stats`: every row, latest `date_played` first. */
    function GetStats(): (r: seq<Stat>)
      reads this, db
      requires Valid()
      ensures SortedByDate(r, true)
      ensures ListsTable(r, db.State())
      ensures |r| == |db.rows|
    {
      ListByDateDesc(db.State())
    }

    /** `update_stat`: replaces the four fields of the row with the given id
        and reports whether there was one. */
    method UpdateStat(statId: int, gameName: string, datePlayed: string, score: int, comments: string := "") returns (found: bool)
      requires Valid()
      modifies db
      ensures Valid()
      ensures (db.State(), found) == Update(old(db.State()), statId, gameName, datePlayed, score, comments)
      ensures found <==> statId in old(db.rows)
      ensures !found ==> unchanged(db)
    {
      found := statId in db.rows;
      if found {
        db.rows := db.rows[statId := Stat(statId, gameName, datePlayed, score, comments)];
      }
    }

    /** `delete_stat`: removes the row with the given id and reports whether
        there was one. */
    method DeleteStat(statId: int) returns (found: bool)
      requires Valid()
      modifies db
      ensures Valid()
      ensures (db.State(), found) == Delete(old(db.State()), statId)
      ensures found <==> statId in old(db.rows)
      ensures statId !in db.rows
    {
      found := statId in db.rows;
      if found {
        db.rows := db.rows - {statId};
      }
    }

    /** `get_stats_for_chart`: the names, dates and scores of all rows,
        earliest date first, as three columns of one length. */
    function GetStatsForChart(): (c: Chart)
      reads this, db
      requires Valid()
      ensures |c.games| == |db.rows| && |c.dates| == |db.rows| && |c.scores| == |db.rows|
      ensures forall i, j :: 0 <= i < j < |c.dates| ==> LexLe(c.dates[i], c.dates[j])
      ensures IsChartOf(c, db.State())
    {
      ChartOf(db.State())
    }
  }

  /** A session on a new file: ids come out increasing, a deleted id is not
      handed out again, and a second delete of it finds nothing. */
  method DeleteThenAddScenario() returns (first: AddResult, second: AddResult, third: AddResult, again: bool)
    ensures first.Added? && second.Added? && third.Added?
    ensures first.id < second.id < third.id
    ensures !again
  {
    var file := new Database.Fresh();
    var store := new GameStatsManager(file);
    first := store.AddStat("Chess", "2024-01-15", 10, "first game");
    second := store.AddStat("Go", "2024-01-16", 7, "");
    var deleted := store.DeleteStat(first.id);
    assert deleted;
    third := store.AddStat("Chess", "2024-01-17", 12, "");
    again := store.DeleteStat(first.id);
  }
}
