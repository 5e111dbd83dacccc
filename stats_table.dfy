/**
 The `stats` table of `GameStatsManager` as a value: the rows keyed by id and
 the AUTOINCREMENT high-water mark. Each SQL statement the manager issues is a
 function here; the class in StatsStore performs the same change in place and
 is proved against these functions.
 */
module StatsTable {
  import opened Collation

  /** The largest rowid SQLite hands out (a signed 64-bit integer). */
  const MaxRowId: int := 0x7FFF_FFFF_FFFF_FFFF

  /** One row `(id, game_name, date_played, score, comments)`. */
  datatype Stat = Stat(id: int, gameName: string, datePlayed: string, score: int, comments: string)

  /** `rows` maps each id to its row; `nextId` is one more than the largest id
      ever assigned (the value SQLite keeps in `sqlite_sequence`), so an id
      freed by a delete is never handed out again. */
  datatype Table = Table(rows: map<int, Stat>, nextId: int)

  ghost predicate Valid(t: Table) {
    && 1 <= t.nextId <= MaxRowId + 1
    && forall k :: k in t.rows ==> 1 <= k < t.nextId && t.rows[k].id == k
  }

  /** The table `CREATE TABLE` makes: no rows, no id assigned yet. */
  const Empty: Table := Table(map[], 1)

  lemma EmptyValid()
    ensures Valid(Empty) && |Empty.rows| == 0
  {
  }

  /** What `INSERT` reports: the new row's id, or SQLITE_FULL once the
      largest rowid has been used. */
  datatype AddResult = Added(id: int) | Full

  /** `INSERT INTO stats (game_name, date_played, score, comments) VALUES (...)`. */
  function Insert(t: Table, gameName: string, datePlayed: string, score: int, comments: string): (r: (Table, AddResult))
    requires Valid(t)
    ensures Valid(r.0)
    ensures r.1.Added? <==> t.nextId <= MaxRowId
    ensures r.1.Added? ==>
      && t.nextId <= r.1.id < r.0.nextId
      && (forall k :: k in t.rows ==> k < r.1.id)
      && r.0.rows.Keys == t.rows.Keys + {r.1.id}
      && |r.0.rows| == |t.rows| + 1
      && r.0.rows[r.1.id] == Stat(r.1.id, gameName, datePlayed, score, comments)
      && (forall k :: k in t.rows ==> r.0.rows[k] == t.rows[k])
    ensures r.1.Full? ==> r.0 == t
  {
    if t.nextId <= MaxRowId then
      var id := t.nextId;
      (Table(t.rows[id := Stat(id, gameName, datePlayed, score, comments)], id + 1), Added(id))
    else
      (t, Full)
  }

  /** `UPDATE stats SET ... WHERE id = ?`; the flag is `rowcount > 0`. */
  function Update(t: Table, statId: int, gameName: string, datePlayed: string, score: int, comments: string): (r: (Table, bool))
    requires Valid(t)
    ensures Valid(r.0) && r.0.nextId == t.nextId
    ensures r.1 <==> statId in t.rows
    ensures r.0.rows.Keys == t.rows.Keys
    ensures r.1 ==> r.0.rows[statId] == Stat(statId, gameName, datePlayed, score, comments)
    ensures forall k :: k in t.rows && k != statId ==> r.0.rows[k] == t.rows[k]
  {
    if statId in t.rows then
      (t.(rows := t.rows[statId := Stat(statId, gameName, datePlayed, score, comments)]), true)
    else
      (t, false)
  }

  /** `DELETE FROM stats WHERE id = ?`; the flag is `rowcount > 0`. */
  function Delete(t: Table, statId: int): (r: (Table, bool))
    requires Valid(t)
    ensures Valid(r.0) && r.0.nextId == t.nextId
    ensures r.1 <==> statId in t.rows
    ensures r.0.rows.Keys == t.rows.Keys - {statId}
    ensures |r.0.rows| == if r.1 then |t.rows| - 1 else |t.rows|
    ensures forall k :: k in r.0.rows ==> r.0.rows[k] == t.rows[k]
  {
    if statId in t.rows then (t.(rows := t.rows - {statId}), true) else (t, false)
  }

  /** The ids of `m` that lie in `lo .. hi-1`. */
  ghost function KeysBetween(m: map<int, Stat>, lo: int, hi: int): set<int> {
    set k | k in m && lo <= k < hi
  }

  /** The rows whose ids lie in `lo .. hi-1`, in id order: the order in which
      SQLite walks a rowid table. The walk over every integer of the range
      only defines the result set; it is not meant as an efficient
      enumeration. */
  function ScanFrom(m: map<int, Stat>, lo: int, hi: int): (r: seq<Stat>)
    requires forall k :: k in m ==> m[k].id == k
    ensures forall row :: multiset(r)[row] == if lo <= row.id < hi && row.id in m && m[row.id] == row then 1 else 0
    decreases hi - lo
  {
    if lo >= hi then []
    else
      var head := if lo in m then [m[lo]] else [];
      var rest := ScanFrom(m, lo + 1, hi);
      assert multiset(head + rest) == multiset(head) + multiset(rest);
      head + rest
  }

  lemma KeysBetweenSplit(m: map<int, Stat>, lo: int, hi: int)
    requires lo < hi
    ensures lo in m ==> KeysBetween(m, lo, hi) == {lo} + KeysBetween(m, lo + 1, hi)
    ensures lo in m ==> lo !in KeysBetween(m, lo + 1, hi)
    ensures lo !in m ==> KeysBetween(m, lo, hi) == KeysBetween(m, lo + 1, hi)
  {
  }

  /** The scan meets each id of the range once. */
  lemma {:induction false} ScanFromLength(m: map<int, Stat>, lo: int, hi: int)
    requires forall k :: k in m ==> m[k].id == k
    ensures |ScanFrom(m, lo, hi)| == |KeysBetween(m, lo, hi)|
    decreases hi - lo
  {
    if lo >= hi {
      assert KeysBetween(m, lo, hi) == {};
    } else {
      ScanFromLength(m, lo + 1, hi);
      KeysBetweenSplit(m, lo, hi);
      var rest := ScanFrom(m, lo + 1, hi);
      if lo in m {
        assert ScanFrom(m, lo, hi) == [m[lo]] + rest;
      } else {
        assert ScanFrom(m, lo, hi) == rest;
      }
    }
  }

  /** `r` holds every row of `t` exactly once and nothing else. */
  ghost predicate ListsTable(r: seq<Stat>, t: Table) {
    forall row :: multiset(r)[row] == if row.id in t.rows && t.rows[row.id] == row then 1 else 0
  }

  /** Every row of the table, each once. */
  function Rows(t: Table): (r: seq<Stat>)
    requires Valid(t)
    ensures ListsTable(r, t)
    ensures |r| == |t.rows|
  {
    assert KeysBetween(t.rows, 1, t.nextId) == t.rows.Keys;
    ScanFromLength(t.rows, 1, t.nextId);
    ScanFrom(t.rows, 1, t.nextId)
  }

  /** Whether `a` may come before `b` in `ORDER BY date_played`, descending
      when `desc` holds and ascending otherwise. Descending is ascending
      read backwards, and rows with equal dates may come in either order. */
  predicate InOrder(a: Stat, b: Stat, desc: bool)
    ensures a.datePlayed == b.datePlayed ==> InOrder(a, b, desc)
  {
    if desc then LexLe(b.datePlayed, a.datePlayed) else LexLe(a.datePlayed, b.datePlayed)
  }

  /** Descending order is ascending order read backwards. */
  lemma InOrderReversed(a: Stat, b: Stat)
    ensures InOrder(a, b, true) <==> InOrder(b, a, false)
  {
  }

  ghost predicate SortedByDate(s: seq<Stat>, desc: bool) {
    forall i, j :: 0 <= i < j < |s| ==> InOrder(s[i], s[j], desc)
  }

  lemma InOrderTotal(a: Stat, b: Stat, desc: bool)
    ensures InOrder(a, b, desc) || InOrder(b, a, desc)
  {
    LexLeTotal(a.datePlayed, b.datePlayed);
  }

  lemma InOrderTransitive(a: Stat, b: Stat, c: Stat, desc: bool)
    requires InOrder(a, b, desc) && InOrder(b, c, desc)
    ensures InOrder(a, c, desc)
  {
    if desc {
      LexLeTransitive(c.datePlayed, b.datePlayed, a.datePlayed);
    } else {
      LexLeTransitive(a.datePlayed, b.datePlayed, c.datePlayed);
    }
  }

  /** A row that may precede the head of a sorted sequence may precede all of it. */
  lemma PrependSorted(x: Stat, s: seq<Stat>, desc: bool)
    requires SortedByDate(s, desc) && (s == [] || InOrder(x, s[0], desc))
    ensures SortedByDate([x] + s, desc)
  {
    forall j | 0 < j < |s| ensures InOrder(x, s[j], desc) {
      InOrderTransitive(x, s[0], s[j], desc);
    }
  }

  /** Places `x` into a sorted sequence. */
  function InsertByDate(x: Stat, s: seq<Stat>, desc: bool): (r: seq<Stat>)
    requires SortedByDate(s, desc)
    ensures SortedByDate(r, desc)
    ensures multiset(r) == multiset(s) + multiset{x}
  {
    if s == [] || InOrder(x, s[0], desc) then
      PrependSorted(x, s, desc);
      [x] + s
    else
      var rest := InsertByDate(x, s[1..], desc);
      InOrderTotal(x, s[0], desc);
      assert s == [s[0]] + s[1..];
      assert forall j :: 0 <= j < |rest| ==> InOrder(s[0], rest[j], desc) by {
        forall j | 0 <= j < |rest| ensures InOrder(s[0], rest[j], desc) {
          assert rest[j] in multiset(rest);
          if rest[j] != x {
            assert rest[j] in multiset(s[1..]);
            var i :| 0 <= i < |s[1..]| && s[1..][i] == rest[j];
            assert s[i + 1] == rest[j];
          }
        }
      }
      PrependSorted(s[0], rest, desc);
      [s[0]] + rest
  }

  /** A sorted permutation of `s`; among rows with equal dates it fixes one
      order, which no contract below relies on. */
  function SortByDate(s: seq<Stat>, desc: bool): (r: seq<Stat>)
    ensures SortedByDate(r, desc)
    ensures multiset(r) == multiset(s)
  {
    if s == [] then []
    else
      assert s == [s[0]] + s[1..];
      InsertByDate(s[0], SortByDate(s[1..], desc), desc)
  }

  /** `SELECT * FROM stats ORDER BY date_played DESC`. */
  function ListByDateDesc(t: Table): (r: seq<Stat>)
    requires Valid(t)
    ensures SortedByDate(r, true)
    ensures ListsTable(r, t)
    ensures |r| == |t.rows|
  {
    var r := SortByDate(Rows(t), true);
    assert |r| == |multiset(r)| == |Rows(t)|;
    r
  }

  /** The result of `get_stats_for_chart`: three columns, index by index. */
  datatype Chart = Chart(games: seq<string>, dates: seq<string>, scores: seq<int>)

  /** Projects rows onto the three chart columns, one entry per row. */
  function Columns(s: seq<Stat>): (c: Chart)
    ensures |c.games| == |s| && |c.dates| == |s| && |c.scores| == |s|
    ensures forall i :: 0 <= i < |s| ==>
      c.games[i] == s[i].gameName && c.dates[i] == s[i].datePlayed && c.scores[i] == s[i].score
  {
    if s == [] then Chart([], [], [])
    else
      var last := s[|s| - 1];
      var c := Columns(s[..|s| - 1]);
      Chart(c.games + [last.gameName], c.dates + [last.datePlayed], c.scores + [last.score])
  }

  /** `c` is the column projection of some date-ascending listing of `t`. */
  ghost predicate IsChartOf(c: Chart, t: Table) {
    exists s :: SortedByDate(s, false) && ListsTable(s, t) && c == Columns(s)
  }

  /** `SELECT game_name, date_played, score FROM stats ORDER BY date_played ASC`,
      split into columns. */
  function ChartOf(t: Table): (c: Chart)
    requires Valid(t)
    ensures |c.games| == |t.rows| && |c.dates| == |t.rows| && |c.scores| == |t.rows|
    ensures forall i, j :: 0 <= i < j < |c.dates| ==> LexLe(c.dates[i], c.dates[j])
    ensures IsChartOf(c, t)
  {
    var s := SortByDate(Rows(t), false);
    assert |s| == |multiset(s)| == |Rows(t)|;
    Columns(s)
  }

  /** Dates are distinct among the rows of `s`. */
  ghost predicate DistinctDates(s: seq<Stat>) {
    forall i, j :: 0 <= i < j < |s| ==> s[i].datePlayed != s[j].datePlayed
  }

  /** Two sorted orderings of the same rows with distinct dates start alike. */
  lemma SortedHeadsAgree(a: seq<Stat>, b: seq<Stat>, desc: bool)
    requires SortedByDate(a, desc) && SortedByDate(b, desc)
    requires multiset(a) == multiset(b) && DistinctDates(a) && |a| > 0
    ensures |b| > 0 && a[0] == b[0]
  {
    assert a[0] in multiset(b) && a[0] in b;
    var i :| 0 <= i < |b| && b[i] == a[0];
    assert b[0] in multiset(a) && b[0] in a;
    var j :| 0 <= j < |a| && a[j] == b[0];
    if j != 0 {
      if i != 0 {
        assert InOrder(a[0], a[j], desc) && InOrder(b[0], b[i], desc);
        LexLeAntisymmetric(a[0].datePlayed, a[j].datePlayed);
      }
      assert false;
    }
  }

  /** Dropping one common head keeps two sequences permutations of each other. */
  lemma SameTails(a: seq<Stat>, b: seq<Stat>)
    requires |a| > 0 && |b| > 0 && a[0] == b[0] && multiset(a) == multiset(b)
    ensures multiset(a[1..]) == multiset(b[1..])
  {
    assert a == [a[0]] + a[1..] && b == [b[0]] + b[1..];
    assert multiset(a) == multiset{a[0]} + multiset(a[1..]);
    assert multiset(b) == multiset{b[0]} + multiset(b[1..]);
    assert multiset(a[1..]) == multiset(a) - multiset{a[0]};
  }

  /** Ties are the only freedom `ORDER BY date_played` leaves: two sorted
      orderings of the same rows with pairwise distinct dates are equal. */
  lemma {:induction false} SortedUnique(a: seq<Stat>, b: seq<Stat>, desc: bool)
    requires SortedByDate(a, desc) && SortedByDate(b, desc)
    requires multiset(a) == multiset(b) && DistinctDates(a)
    ensures a == b
    decreases |a|
  {
    assert |a| == |multiset(a)| == |b|;
    if |a| > 0 {
      SortedHeadsAgree(a, b, desc);
      SameTails(a, b);
      SortedUnique(a[1..], b[1..], desc);
    }
  }

  /** When every stored date has the `YYYY-MM-DD` shape, the listing runs
      from the latest calendar date to the earliest. */
  lemma ListedNewestFirst(t: Table)
    requires Valid(t)
    requires forall k :: k in t.rows ==> IsIsoDate(t.rows[k].datePlayed)
    ensures forall i, j :: 0 <= i < j < |ListByDateDesc(t)| ==>
      && IsIsoDate(ListByDateDesc(t)[i].datePlayed) && IsIsoDate(ListByDateDesc(t)[j].datePlayed)
      && ChronoLe(ListByDateDesc(t)[j].datePlayed, ListByDateDesc(t)[i].datePlayed)
  {
    var r := ListByDateDesc(t);
    forall i | 0 <= i < |r| ensures IsIsoDate(r[i].datePlayed) {
      assert r[i] in multiset(r);
    }
    forall i, j | 0 <= i < j < |r|
      ensures ChronoLe(r[j].datePlayed, r[i].datePlayed)
    {
      IsoDateOrder(r[j].datePlayed, r[i].datePlayed);
    }
  }

  /** A listed sequence holds exactly the table's rows. */
  lemma ListedIffStored(r: seq<Stat>, t: Table, row: Stat)
    requires ListsTable(r, t)
    ensures row in r <==> row.id in t.rows && t.rows[row.id] == row
  {
    assert row in r <==> row in multiset(r);
  }

  /** A row that was added shows up in the next listing with the values given. */
  lemma InsertThenListed(t: Table, gameName: string, datePlayed: string, score: int, comments: string)
    requires Valid(t) && t.nextId <= MaxRowId
    ensures Insert(t, gameName, datePlayed, score, comments).1.Added?
    ensures
      var (t', res) := Insert(t, gameName, datePlayed, score, comments);
      Stat(res.id, gameName, datePlayed, score, comments) in ListByDateDesc(t')
  {
    var (t', res) := Insert(t, gameName, datePlayed, score, comments);
    ListedIffStored(ListByDateDesc(t'), t', Stat(res.id, gameName, datePlayed, score, comments));
  }

  /** After an update, the listing holds the new values under the same id
      and no longer holds the old row. */
  lemma UpdateThenListed(t: Table, statId: int, gameName: string, datePlayed: string, score: int, comments: string)
    requires Valid(t) && statId in t.rows
    requires t.rows[statId] != Stat(statId, gameName, datePlayed, score, comments)
    ensures
      var t' := Update(t, statId, gameName, datePlayed, score, comments).0;
      && Stat(statId, gameName, datePlayed, score, comments) in ListByDateDesc(t')
      && t.rows[statId] !in ListByDateDesc(t')
  {
    var t' := Update(t, statId, gameName, datePlayed, score, comments).0;
    ListedIffStored(ListByDateDesc(t'), t', Stat(statId, gameName, datePlayed, score, comments));
    ListedIffStored(ListByDateDesc(t'), t', t.rows[statId]);
  }

  /** After a delete, no listed row carries the id, and every other row is
      still listed. */
  lemma DeleteThenListed(t: Table, statId: int)
    requires Valid(t)
    ensures
      var t' := Delete(t, statId).0;
      && (forall i :: 0 <= i < |ListByDateDesc(t')| ==> ListByDateDesc(t')[i].id != statId)
      && (forall k :: k in t.rows && k != statId ==> t.rows[k] in ListByDateDesc(t'))
  {
    var t' := Delete(t, statId).0;
    var r := ListByDateDesc(t');
    forall i | 0 <= i < |r| ensures r[i].id != statId {
      ListedIffStored(r, t', r[i]);
    }
    forall k | k in t.rows && k != statId ensures t.rows[k] in r {
      ListedIffStored(r, t', t.rows[k]);
    }
  }

  /** A second delete of the same id finds nothing and changes nothing. */
  lemma DeleteTwice(t: Table, statId: int)
    requires Valid(t)
    ensures
      var t' := Delete(t, statId).0;
      Delete(t', statId) == (t', false)
  {
  }

  /** Updating twice with the same values is the same as updating once. */
  lemma UpdateIdempotent(t: Table, statId: int, gameName: string, datePlayed: string, score: int, comments: string)
    requires Valid(t)
    ensures
      var (t', found) := Update(t, statId, gameName, datePlayed, score, comments);
      Update(t', statId, gameName, datePlayed, score, comments) == (t', found)
  {
    var (t', found) := Update(t, statId, gameName, datePlayed, score, comments);
    if found {
      assert t'.rows[statId := Stat(statId, gameName, datePlayed, score, comments)] == t'.rows;
    }
  }

  /** Deleting the row just added gives back the old rows, but not the old
      counter: the next insert gets a larger id than the deleted one. */
  lemma InsertDeleteInsert(t: Table, gameName: string, datePlayed: string, score: int, comments: string)
    requires Valid(t) && t.nextId < MaxRowId
    ensures
      var (t1, res1) := Insert(t, gameName, datePlayed, score, comments);
      var t2 := Delete(t1, res1.id).0;
      var res3 := Insert(t2, gameName, datePlayed, score, comments).1;
      && t2.rows == t.rows
      && res3.Added? && res3.id > res1.id
  {
    var (t1, res1) := Insert(t, gameName, datePlayed, score, comments);
    var t2 := Delete(t1, res1.id).0;
    assert t2.rows == t.rows;
  }

  /** An empty table lists nothing and charts nothing. */
  lemma EmptyListsNothing()
    ensures ListByDateDesc(Empty) == []
    ensures ChartOf(Empty) == Chart([], [], [])
  {
  }

  /** Two listings of one table with distinct dates and one sort direction
      are the same sequence. */
  lemma ListingDetermined(r: seq<Stat>, e: seq<Stat>, t: Table, desc: bool)
    requires ListsTable(r, t) && ListsTable(e, t)
    requires SortedByDate(r, desc) && SortedByDate(e, desc) && DistinctDates(e)
    ensures r == e
  {
    assert multiset(r) == multiset(e);
    SortedUnique(e, r, desc);
  }

  /** `t` holds the three rows `x`, `y`, `z` under their ids and nothing else. */
  ghost predicate HoldsExactly(t: Table, x: Stat, y: Stat, z: Stat) {
    && t.rows.Keys == {x.id, y.id, z.id}
    && x.id in t.rows && t.rows[x.id] == x
    && y.id in t.rows && t.rows[y.id] == y
    && z.id in t.rows && t.rows[z.id] == z
  }

  /** A table of three rows is listed by those rows in any order. */
  lemma ThreeRowsListed(t: Table, x: Stat, y: Stat, z: Stat)
    requires x.id != y.id && y.id != z.id && x.id != z.id
    requires HoldsExactly(t, x, y, z)
    ensures ListsTable([x, y, z], t)
  {
  }

  /** Three rows in order, with distinct dates. */
  lemma ThreeSorted(x: Stat, y: Stat, z: Stat, desc: bool)
    requires InOrder(x, y, desc) && InOrder(y, z, desc) && InOrder(x, z, desc)
    requires x.datePlayed != y.datePlayed && y.datePlayed != z.datePlayed && x.datePlayed != z.datePlayed
    ensures SortedByDate([x, y, z], desc) && DistinctDates([x, y, z])
  {
  }

  /** A table of three rows with distinct dates is listed in date order,
      newest first, and in no other order. */
  lemma ThreeRowsListedNewestFirst(t: Table, x: Stat, y: Stat, z: Stat)
    requires Valid(t) && HoldsExactly(t, x, y, z)
    requires x.id != y.id && y.id != z.id && x.id != z.id
    requires LexLe(x.datePlayed, y.datePlayed) && LexLe(y.datePlayed, z.datePlayed)
    requires x.datePlayed != y.datePlayed && y.datePlayed != z.datePlayed && x.datePlayed != z.datePlayed
    ensures ListByDateDesc(t) == [z, y, x]
  {
    LexLeTransitive(x.datePlayed, y.datePlayed, z.datePlayed);
    ThreeSorted(z, y, x, true);
    ThreeRowsListed(t, z, y, x);
    ListingDetermined(ListByDateDesc(t), [z, y, x], t, true);
  }

  /** The same table is charted in date order, oldest first. */
  lemma ThreeRowsChartedOldestFirst(t: Table, x: Stat, y: Stat, z: Stat)
    requires Valid(t) && HoldsExactly(t, x, y, z)
    requires x.id != y.id && y.id != z.id && x.id != z.id
    requires LexLe(x.datePlayed, y.datePlayed) && LexLe(y.datePlayed, z.datePlayed)
    requires x.datePlayed != y.datePlayed && y.datePlayed != z.datePlayed && x.datePlayed != z.datePlayed
    ensures ChartOf(t).dates == [x.datePlayed, y.datePlayed, z.datePlayed]
  {
    LexLeTransitive(x.datePlayed, y.datePlayed, z.datePlayed);
    ThreeSorted(x, y, z, false);
    ThreeRowsListed(t, x, y, z);
    var s :| SortedByDate(s, false) && ListsTable(s, t) && ChartOf(t) == Columns(s);
    ListingDetermined(s, [x, y, z], t, false);
    ColumnsOfThree(x, y, z);
  }

  lemma ColumnsOfThree(x: Stat, y: Stat, z: Stat)
    ensures Columns([x, y, z]).dates == [x.datePlayed, y.datePlayed, z.datePlayed]
  {
  }

  /** Adds a row with the given fields to a table whose next id is known. */
  lemma InsertAt(t: Table, row: Stat)
    requires Valid(t) && t.nextId == row.id <= MaxRowId
    ensures Insert(t, row.gameName, row.datePlayed, row.score, row.comments).0 == Table(t.rows[row.id := row], row.id + 1)
  {
  }

  /** Adding rows dated 2024-01-01, 2024-03-01 and 2024-02-01, in that
      order, to a new table gives them the ids 1, 2 and 3. */
  lemma ExampleInserts(t0: Table)
    requires Valid(t0) && t0.rows == map[] && t0.nextId == 1
    ensures
      var t1 := Insert(t0, "A", "2024-01-01", 1, "").0;
      var t2 := Insert(t1, "B", "2024-03-01", 2, "").0;
      var t3 := Insert(t2, "C", "2024-02-01", 3, "").0;
      t3.rows == map[1 := Stat(1, "A", "2024-01-01", 1, ""), 2 := Stat(2, "B", "2024-03-01", 2, ""), 3 := Stat(3, "C", "2024-02-01", 3, "")]
  {
    var a, b, c := Stat(1, "A", "2024-01-01", 1, ""), Stat(2, "B", "2024-03-01", 2, ""), Stat(3, "C", "2024-02-01", 3, "");
    InsertAt(t0, a);
    var t1 := Table(map[a.id := a], 2);
    InsertAt(t1, b);
    var t2 := Table(map[a.id := a, b.id := b], 3);
    InsertAt(t2, c);
  }

  lemma ExampleDatesOrdered()
    ensures LexLe("2024-01-01", "2024-02-01") && LexLe("2024-02-01", "2024-03-01")
  {
  }

  /** That table is listed newest first and charted oldest first. */
  lemma OrderingExample(t: Table)
    requires Valid(t)
    requires t.rows == map[1 := Stat(1, "A", "2024-01-01", 1, ""), 2 := Stat(2, "B", "2024-03-01", 2, ""), 3 := Stat(3, "C", "2024-02-01", 3, "")]
    ensures ListByDateDesc(t) == [Stat(2, "B", "2024-03-01", 2, ""), Stat(3, "C", "2024-02-01", 3, ""), Stat(1, "A", "2024-01-01", 1, "")]
    ensures ChartOf(t).dates == ["2024-01-01", "2024-02-01", "2024-03-01"]
  {
    var a, b, c := Stat(1, "A", "2024-01-01", 1, ""), Stat(2, "B", "2024-03-01", 2, ""), Stat(3, "C", "2024-02-01", 3, "");
    assert HoldsExactly(t, a, c, b);
    ExampleDatesOrdered();
    ThreeRowsListedNewestFirst(t, a, c, b);
    ThreeRowsChartedOldestFirst(t, a, c, b);
  }

  /** One call of the store's mutating API. */
  datatype Op =
    | AddOp(gameName: string, datePlayed: string, score: int, comments: string)
    | UpdateOp(statId: int, gameName: string, datePlayed: string, score: int, comments: string)
    | DeleteOp(statId: int)

  /** What a call returns: an insert result, or the `rowcount > 0` flag. */
  datatype Reply = AddReply(result: AddResult) | FlagReply(found: bool)

  function Step(t: Table, op: Op): (r: (Table, Reply))
    requires Valid(t)
    ensures Valid(r.0)
  {
    match op
    case AddOp(g, d, s, c) =>
      var (t', res) := Insert(t, g, d, s, c); (t', AddReply(res))
    case UpdateOp(k, g, d, s, c) =>
      var (t', found) := Update(t, k, g, d, s, c); (t', FlagReply(found))
    case DeleteOp(k) =>
      var (t', found) := Delete(t, k); (t', FlagReply(found))
  }

  /** Runs calls one after another, collecting their replies. */
  function Run(t: Table, ops: seq<Op>): (r: (Table, seq<Reply>))
    requires Valid(t)
    ensures Valid(r.0) && |r.1| == |ops|
    decreases |ops|
  {
    if ops == [] then (t, [])
    else
      var (t1, reply) := Step(t, ops[0]);
      var (t2, replies) := Run(t1, ops[1..]);
      (t2, [reply] + replies)
  }

  predicate IsAdded(reply: Reply) {
    reply.AddReply? && reply.result.Added?
  }

  /** Over any run, the counter never goes down, every id handed out is at
      least the counter at the start, and later inserts get larger ids. */
  lemma {:induction false} RunIdsIncrease(t: Table, ops: seq<Op>)
    requires Valid(t)
    ensures t.nextId <= Run(t, ops).0.nextId
    ensures forall i :: 0 <= i < |ops| && IsAdded(Run(t, ops).1[i]) ==>
      t.nextId <= Run(t, ops).1[i].result.id < Run(t, ops).0.nextId
    ensures forall i, j :: 0 <= i < j < |ops| && IsAdded(Run(t, ops).1[i]) && IsAdded(Run(t, ops).1[j]) ==>
      Run(t, ops).1[i].result.id < Run(t, ops).1[j].result.id
    decreases |ops|
  {
    if ops != [] {
      var (t1, reply) := Step(t, ops[0]);
      var (t2, replies) := Run(t1, ops[1..]);
      RunIdsIncrease(t1, ops[1..]);
      assert Run(t, ops).1 == [reply] + replies;
      assert t.nextId <= t1.nextId;
      assert IsAdded(reply) ==> t.nextId <= reply.result.id < t1.nextId;
    }
  }

  /** Ids are never reused: once a row is deleted, no later insert, after
      any calls whatever, returns its id or a smaller one. */
  lemma IdsNeverReused(t: Table, statId: int, ops: seq<Op>)
    requires Valid(t) && statId in t.rows
    ensures
      var replies := Run(Delete(t, statId).0, ops).1;
      forall i :: 0 <= i < |replies| && IsAdded(replies[i]) ==> replies[i].result.id > statId
  {
    RunIdsIncrease(Delete(t, statId).0, ops);
  }
}
