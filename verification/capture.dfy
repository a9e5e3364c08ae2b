/** `capture_query_stats` of lib/pghero/methods/query_stats.rb as a pure step:
    given the database registry, whether the statistics view is readable, what
    the view holds for each database name, and the clock, it yields whether the
    view is reset and which rows are inserted into the capture table. The reset
    and the insert are effects, so they appear as data in the `Outcome`. */
module Capture {
  import opened Wrappers
  import opened Grouping
  import opened Ranking
  import opened QueryStatsMethods

  /** A database's `capture_query_stats` setting: unset, a boolean, or the id of
      the database that captures on its behalf. */
  datatype CaptureSetting = Unset | Flag(on: bool) | SharedWith(id: string)

  /** One entry of `PgHero.databases`. */
  datatype Database = Database(
    id: string,
    databaseName: string,
    capture: CaptureSetting,
    supportsQueryHash: bool,
    supportsQueryStatsUser: bool)

  /** A value handed to `insert_stats`, before quoting. */
  datatype Value = Text(text: Option<string>) | Number(number: real) | Count(count: int) | Time(time: int)

  /** One multi-row `INSERT` issued by `insert_stats`. */
  datatype Insert = Insert(table: string, columns: seq<string>, rows: seq<seq<Value>>)

  /** The effects of one capture: whether `pg_stat_statements_reset()` ran, and
      for each database of the mapping, in order, the insert issued for it if any. */
  datatype Outcome = Outcome(resetIssued: bool, inserts: seq<Option<Insert>>)

  const CaptureTable := "pghero_query_stats"
  const BaseColumns: seq<string> := ["database", "query", "total_time", "calls", "captured_at"]

  /** The options `capture_query_stats` passes to `query_stats`: none of
      `historical`, `end_at`, `min_average_time`, `min_calls` or `sort`. */
  const CaptureOptions := Options(false, None, None, None, TotalMinutes)

  /** `PgHero.databases` is a hash keyed by id. */
  predicate DistinctIds(registry: seq<Database>) {
    forall i, j :: 0 <= i < j < |registry| ==> registry[i].id != registry[j].id
  }

  /** The early return of line 93: a database whose setting is truthy but not
      `true` (the id of another database) is captured by that database instead. */
  predicate CapturesItself(self: Database) {
    !self.capture.SharedWith?
  }

  function SharesWith(id: string): Database -> bool {
    (d: Database) => d.capture == SharedWith(id)
  }

  /** The `mapping` of lines 96-99: this database first, then every registered
      database whose setting names this one, in registry order. */
  function Members(self: Database, registry: seq<Database>): (ms: seq<Database>)
    ensures |ms| >= 1 && ms[0] == self
    ensures forall i :: 1 <= i < |ms| ==> ms[i] in registry && ms[i].capture == SharedWith(self.id)
    ensures forall j :: 0 <= j < |registry| && registry[j].capture == SharedWith(self.id) ==> registry[j] in ms
  {
    var shared := Keep(registry, SharesWith(self.id));
    SubseqMembers(shared, registry);
    [self] + shared
  }

  /** The mapping never lists a database twice, as befits a hash keyed by id. */
  lemma MembersDistinct(self: Database, registry: seq<Database>)
    requires self in registry && DistinctIds(registry) && CapturesItself(self)
    ensures DistinctIds(Members(self, registry))
  {
    var shared := Keep(registry, SharesWith(self.id));
    SubseqKeepsDistinct(shared, registry);
    var ms := Members(self, registry);
    forall i, j | 0 <= i < j < |ms| ensures ms[i].id != ms[j].id {
      if i == 0 {
        assert ms[j] in registry && ms[j].capture == SharedWith(self.id);
        OtherId(self, ms[j], registry);
      } else {
        assert ms[i] == shared[i - 1] && ms[j] == shared[j - 1];
      }
    }
  }

  /** A database that differs from `self` has another id, in a registry keyed by id. */
  lemma OtherId(self: Database, d: Database, registry: seq<Database>)
    requires self in registry && d in registry && DistinctIds(registry) && d != self
    ensures d.id != self.id
  {
    var a :| 0 <= a < |registry| && registry[a] == self;
    var b :| 0 <= b < |registry| && registry[b] == d;
    assert a != b;
  }

  lemma {:induction false} SubseqKeepsDistinct(a: seq<Database>, b: seq<Database>)
    requires IsSubseq(a, b) && DistinctIds(b)
    ensures DistinctIds(a)
    decreases |b|
  {
    if a != [] && b != [] {
      assert DistinctIds(b[1..]) by {
        forall i, j | 0 <= i < j < |b[1..]| ensures b[1..][i].id != b[1..][j].id {
          assert b[1..][i] == b[i + 1] && b[1..][j] == b[j + 1];
        }
      }
      if a[0] == b[0] {
        SubseqKeepsDistinct(a[1..], b[1..]);
        SubseqMembers(a[1..], b[1..]);
        forall i, j | 0 <= i < j < |a| ensures a[i].id != a[j].id {
          assert a[j] == a[1..][j - 1];
          if i == 0 {
            var k :| 0 <= k < |b[1..]| && b[1..][k] == a[j];
            assert b[k + 1] == a[j];
          } else {
            assert a[i] == a[1..][i - 1];
          }
        }
      } else {
        SubseqKeepsDistinct(a, b[1..]);
      }
    }
  }

  /** What `current_query_stats` returns for one database name: nothing when the
      statistics view is not readable, otherwise what the view holds for it. */
  function LiveOf(live: map<string, seq<Row>>, enabled: bool, name: string): seq<Row> {
    if enabled && name in live then live[name] else []
  }

  predicate ValidLive(live: map<string, seq<Row>>) {
    forall name | name in live :: ValidRows(live[name])
  }

  /** The statements captured for one database: every merged statement. */
  function MemberStats(rows: seq<Row>, now: int): (r: seq<Stat>)
    requires ValidRows(rows)
    ensures |r| == |MergeRows(rows)|
    ensures r == [] <==> rows == []
    ensures SumOf(r, StatMinutes) == SumOf(rows, TotalMinutesOf)
  {
    MergeEmpty(rows);
    MergeCallsPositive(rows);
    MetricsKeepMinutes(MergeRows(rows), AllQueriesTotal(rows, []));
    MergeConserves(rows);
    MergedLiveOnly(rows, CaptureOptions, now);
    assert rows + [] == rows;
    Merged(rows, [], CaptureOptions, now)
  }

  /** The statements line 104 captures for one database: `query_stats`, which
      keeps only the first 100. */
  function MemberStatsAsWritten(rows: seq<Row>, now: int): (r: seq<Stat>)
    requires ValidRows(rows)
    ensures |r| == if |MergeRows(rows)| < 100 then |MergeRows(rows)| else 100
    ensures r == [] <==> rows == []
  {
    MergeEmpty(rows);
    MergedLiveOnly(rows, CaptureOptions, now);
    UnfilteredCount(rows, [], CaptureOptions, now);
    QueryStats(rows, [], CaptureOptions, now)
  }

  /** The column a value of `insert_stats` belongs to, by column name. */
  function ColumnValue(column: string, db: Database, s: Stat, now: int): Value {
    if column == "database" then Text(Some(db.id))
    else if column == "query" then Text(s.row.query)
    else if column == "total_time" then Number(s.row.totalMinutes * 60000.0)
    else if column == "calls" then Count(s.row.calls)
    else if column == "captured_at" then Time(now)
    else if column == "query_hash" then Text(s.row.queryHash)
    else Text(s.row.user)
  }

  /** The column list of lines 126-128. */
  function Columns(db: Database): (cs: seq<string>)
    ensures |cs| == 5 + (if db.supportsQueryHash then 1 else 0) + (if db.supportsQueryStatsUser then 1 else 0)
    ensures cs[..5] == BaseColumns
    ensures "query_hash" in cs <==> db.supportsQueryHash
    ensures "user" in cs <==> db.supportsQueryStatsUser
  {
    BaseColumns
    + (if db.supportsQueryHash then ["query_hash"] else [])
    + (if db.supportsQueryStatsUser then ["user"] else [])
  }

  /** The values of lines 114-123 for one statement, in column order: each value
      is the one its column names. */
  function StatValues(db: Database, s: Stat, now: int): (vs: seq<Value>)
    ensures |vs| == |Columns(db)|
    ensures forall c :: 0 <= c < |vs| ==> vs[c] == ColumnValue(Columns(db)[c], db, s, now)
  {
    [Text(Some(db.id)), Text(s.row.query), Number(s.row.totalMinutes * 60.0 * 1000.0), Count(s.row.calls), Time(now)]
    + (if db.supportsQueryHash then [Text(s.row.queryHash)] else [])
    + (if db.supportsQueryStatsUser then [Text(s.row.user)] else [])
  }

  function RowsFor(db: Database, stats: seq<Stat>, now: int): (r: seq<seq<Value>>)
    ensures |r| == |stats|
    ensures forall i :: 0 <= i < |stats| ==> r[i] == StatValues(db, stats[i], now)
    decreases |stats|
  {
    if stats == [] then [] else [StatValues(db, stats[0], now)] + RowsFor(db, stats[1..], now)
  }

  /** The `insert_stats` call for one database: one row per statement, each value
      under the column it belongs to. */
  function InsertFor(db: Database, stats: seq<Stat>, now: int): (ins: Insert)
    ensures ins.table == CaptureTable && ins.columns == Columns(db)
    ensures |ins.rows| == |stats|
    ensures forall i :: 0 <= i < |stats| ==> |ins.rows[i]| == |ins.columns|
    ensures forall i, c :: 0 <= i < |stats| && 0 <= c < |ins.columns| ==>
      ins.rows[i][c] == ColumnValue(ins.columns[c], db, stats[i], now)
  {
    Insert(CaptureTable, Columns(db), RowsFor(db, stats, now))
  }

  function TotalTimeOf(row: seq<Value>): real {
    if |row| > 2 && row[2].Number? then row[2].number else 0.0
  }

  /** The `total_time` column of an insert adds up to the captured minutes, in
      milliseconds. */
  lemma {:induction false} InsertKeepsTotalTime(db: Database, stats: seq<Stat>, now: int)
    ensures SumOf(RowsFor(db, stats, now), TotalTimeOf) == SumOf(stats, StatMinutes) * 60000.0
    decreases |stats|
  {
    if stats != [] {
      InsertKeepsTotalTime(db, stats[1..], now);
      assert RowsFor(db, stats, now)[1..] == RowsFor(db, stats[1..], now);
    }
  }

  /** Lines 106-133 once the per-database statistics are known: reset only when
      some database has statistics and the view is readable, and insert, after
      the reset, for each database that has statistics. */
  function CaptureFrom(members: seq<Database>, stats: seq<seq<Stat>>, enabled: bool, now: int): (o: Outcome)
    requires |stats| == |members|
    ensures o.resetIssued <==> enabled && exists i :: 0 <= i < |stats| && stats[i] != []
    ensures |o.inserts| == |members|
    ensures forall i :: 0 <= i < |members| ==> (o.inserts[i].Some? <==> o.resetIssued && stats[i] != [])
    ensures forall i :: 0 <= i < |members| && o.inserts[i].Some? ==>
      o.inserts[i].value == InsertFor(members[i], stats[i], now)
  {
    var reset := enabled && exists i :: 0 <= i < |stats| && stats[i] != [];
    Outcome(reset, seq(|members|, i requires 0 <= i < |members| =>
      if reset && stats[i] != [] then Some(InsertFor(members[i], stats[i], now)) else None))
  }

  /** Some database of the mapping has rows in the statistics view. */
  predicate AnyLive(members: seq<Database>, live: map<string, seq<Row>>, enabled: bool) {
    exists i :: 0 <= i < |members| && LiveOf(live, enabled, members[i].databaseName) != []
  }

  /** When each database has statistics exactly when it has live rows, the reset
      and the inserts follow the live rows. */
  lemma CaptureFromLive(members: seq<Database>, stats: seq<seq<Stat>>, live: map<string, seq<Row>>,
                        enabled: bool, now: int)
    requires |stats| == |members|
    requires forall i :: 0 <= i < |members| ==>
      (stats[i] == [] <==> LiveOf(live, enabled, members[i].databaseName) == [])
    ensures CaptureFrom(members, stats, enabled, now).resetIssued <==> AnyLive(members, live, enabled)
    ensures forall i :: 0 <= i < |members| ==>
      (CaptureFrom(members, stats, enabled, now).inserts[i].Some? <==> LiveOf(live, enabled, members[i].databaseName) != [])
  {
    if AnyLive(members, live, enabled) {
      var i :| 0 <= i < |members| && LiveOf(live, enabled, members[i].databaseName) != [];
      assert stats[i] != [];
    }
  }

  /** The statistics of every database of the mapping, in mapping order. */
  function StatsOf(members: seq<Database>, live: map<string, seq<Row>>, enabled: bool, now: int)
    : (stats: seq<seq<Stat>>)
    requires ValidLive(live)
    ensures |stats| == |members|
    ensures forall i :: 0 <= i < |members| ==>
      stats[i] == MemberStats(LiveOf(live, enabled, members[i].databaseName), now)
  {
    seq(|members|, i requires 0 <= i < |members| => MemberStats(LiveOf(live, enabled, members[i].databaseName), now))
  }

  lemma CaptureSpec(members: seq<Database>, live: map<string, seq<Row>>, enabled: bool, now: int)
    requires ValidLive(live)
    ensures var o := CaptureFrom(members, StatsOf(members, live, enabled, now), enabled, now);
      && |o.inserts| == |members|
      && (o.resetIssued <==> AnyLive(members, live, enabled))
      && (forall i :: 0 <= i < |members| ==>
            (o.inserts[i].Some? <==> LiveOf(live, enabled, members[i].databaseName) != []))
  {
    CaptureFromLive(members, StatsOf(members, live, enabled, now), live, enabled, now);
  }

  lemma CaptureSpecValues(members: seq<Database>, live: map<string, seq<Row>>, enabled: bool, now: int)
    requires ValidLive(live)
    ensures var o := CaptureFrom(members, StatsOf(members, live, enabled, now), enabled, now);
      forall i :: 0 <= i < |members| && o.inserts[i].Some? ==>
        o.inserts[i].value == InsertFor(members[i], MemberStats(LiveOf(live, enabled, members[i].databaseName), now), now)
  {
  }

  /** `capture_query_stats`, storing every merged statement of every database in
      the mapping before the reset. The view is reset exactly when some database
      of the mapping has statistics, and each database with statistics gets the
      insert of all its statements. */
  function Capture(self: Database, registry: seq<Database>, enabled: bool, live: map<string, seq<Row>>, now: int)
    : (o: Outcome)
    requires self in registry && DistinctIds(registry) && ValidLive(live)
    ensures !CapturesItself(self) ==> o == Outcome(false, [])
    ensures CapturesItself(self) ==> |o.inserts| == |Members(self, registry)|
    ensures o.resetIssued <==> CapturesItself(self) && AnyLive(Members(self, registry), live, enabled)
    ensures forall i :: 0 <= i < |o.inserts| ==>
      var rows := LiveOf(live, enabled, Members(self, registry)[i].databaseName);
      && (o.inserts[i].Some? <==> rows != [])
      && (o.inserts[i].Some? ==> o.inserts[i].value == InsertFor(Members(self, registry)[i], MemberStats(rows, now), now))
  {
    if !CapturesItself(self) then Outcome(false, [])
    else
      var members := Members(self, registry);
      CaptureSpec(members, live, enabled, now);
      CaptureSpecValues(members, live, enabled, now);
      CaptureFrom(members, StatsOf(members, live, enabled, now), enabled, now)
  }

  /** The statistics of every database of the mapping as `query_stats` returns
      them, in mapping order. */
  function StatsAsWrittenOf(members: seq<Database>, live: map<string, seq<Row>>, enabled: bool, now: int)
    : (stats: seq<seq<Stat>>)
    requires ValidLive(live)
    ensures |stats| == |members|
    ensures forall i :: 0 <= i < |members| ==>
      stats[i] == MemberStatsAsWritten(LiveOf(live, enabled, members[i].databaseName), now)
  {
    seq(|members|, i requires 0 <= i < |members| => MemberStatsAsWritten(LiveOf(live, enabled, members[i].databaseName), now))
  }

  lemma CaptureAsWrittenSpec(members: seq<Database>, live: map<string, seq<Row>>, enabled: bool, now: int)
    requires ValidLive(live)
    ensures var o := CaptureFrom(members, StatsAsWrittenOf(members, live, enabled, now), enabled, now);
      && |o.inserts| == |members|
      && (o.resetIssued <==> AnyLive(members, live, enabled))
      && (forall i :: 0 <= i < |members| ==>
            var rows := LiveOf(live, enabled, members[i].databaseName);
            && (o.inserts[i].Some? <==> rows != [])
            && (o.inserts[i].Some? ==> |o.inserts[i].value.rows| == if |MergeRows(rows)| < 100 then |MergeRows(rows)| else 100))
  {
    var stats := StatsAsWrittenOf(members, live, enabled, now);
    CaptureFromLive(members, stats, live, enabled, now);
  }

  /** `capture_query_stats` as lines 101-105 write it: each database's statistics
      come from `query_stats`, which keeps only its first 100 statements. */
  function CaptureAsWritten(self: Database, registry: seq<Database>, enabled: bool, live: map<string, seq<Row>>,
                            now: int): (o: Outcome)
    requires self in registry && DistinctIds(registry) && ValidLive(live)
    ensures !CapturesItself(self) ==> o == Outcome(false, [])
    ensures CapturesItself(self) ==> |o.inserts| == |Members(self, registry)|
    ensures o.resetIssued <==> CapturesItself(self) && AnyLive(Members(self, registry), live, enabled)
    ensures forall i :: 0 <= i < |o.inserts| ==>
      var rows := LiveOf(live, enabled, Members(self, registry)[i].databaseName);
      && (o.inserts[i].Some? <==> rows != [])
      && (o.inserts[i].Some? ==> |o.inserts[i].value.rows| == if |MergeRows(rows)| < 100 then |MergeRows(rows)| else 100)
  {
    if !CapturesItself(self) then Outcome(false, [])
    else
      var members := Members(self, registry);
      CaptureAsWrittenSpec(members, live, enabled, now);
      CaptureFrom(members, StatsAsWrittenOf(members, live, enabled, now), enabled, now)
  }

  /** The capture test: once a database with statistics captures, the capture
      table holds rows. */
  lemma CaptureStoresRows(self: Database, registry: seq<Database>, live: map<string, seq<Row>>, now: int)
    requires self in registry && DistinctIds(registry) && ValidLive(live)
    requires CapturesItself(self) && self.databaseName in live && live[self.databaseName] != []
    ensures var o := Capture(self, registry, true, live, now);
      o.resetIssued && |o.inserts| > 0 && o.inserts[0].Some? && o.inserts[0].value.rows != []
  {
    assert Members(self, registry)[0] == self;
    assert LiveOf(live, true, self.databaseName) != [];
  }

  /** Every statement reset away is stored: each database of the mapping with
      statistics gets an insert holding one row per merged statement, whose
      `total_time` column adds up to all its minutes in milliseconds. */
  lemma CaptureKeepsEveryStatement(self: Database, registry: seq<Database>, enabled: bool,
                                   live: map<string, seq<Row>>, now: int, i: nat)
    requires self in registry && DistinctIds(registry) && ValidLive(live) && CapturesItself(self)
    requires i < |Members(self, registry)|
    requires LiveOf(live, enabled, Members(self, registry)[i].databaseName) != []
    ensures var o := Capture(self, registry, enabled, live, now);
      var rows := LiveOf(live, enabled, Members(self, registry)[i].databaseName);
      && o.resetIssued
      && o.inserts[i].Some?
      && |o.inserts[i].value.rows| == |MergeRows(rows)|
      && SumOf(o.inserts[i].value.rows, TotalTimeOf) == SumOf(rows, TotalMinutesOf) * 60000.0
  {
    var m := Members(self, registry)[i];
    var rows := LiveOf(live, enabled, m.databaseName);
    InsertKeepsTotalTime(m, MemberStats(rows, now), now);
  }

  // ---------------------------------------------------------------------------
  // The cut of the as-written capture, on a concrete database

  /** A database that reports statistics per user and captures for itself. */
  const Example := Database("primary", "app", Unset, false, true)

  /** One statement text `q` run by 101 different users, each run once for one
      minute: 101 statements, since the user is part of the key. */
  function ExampleRows(q: string): (rows: seq<Row>)
    ensures |rows| == 101
    ensures forall i :: 0 <= i < |rows| ==> rows[i].query == Some(q)
  {
    seq(101, i requires 0 <= i < 101 => Row(Some(q), None, Some([(i + 65) as char]), 1.0, 1, 101.0, None))
  }

  lemma ExampleMergesToItself(q: string)
    ensures MergeRows(ExampleRows(q)) == ExampleRows(q)
  {
    var rows := ExampleRows(q);
    forall i | 0 <= i < |rows| ensures SelfContained(rows[i]) && rows[i].user == Some([(i + 65) as char]) {
    }
    PassOnDistinctKeys(rows, HashKey);
    PassOnDistinctKeys(rows, TextKey);
  }

  /** As written, capturing a database where one statement text was run by 101
      users resets all 101 statements and stores 100 of them. */
  lemma CaptureAsWrittenDropsStatements(q: string)
    ensures var o := CaptureAsWritten(Example, [Example], true, map["app" := ExampleRows(q)], 0);
      && o.resetIssued
      && |MergeRows(ExampleRows(q))| == 101
      && |o.inserts| == 1 && o.inserts[0].Some? && |o.inserts[0].value.rows| == 100
  {
    var live := map["app" := ExampleRows(q)];
    assert ValidLive(live);
    ExampleMergesToItself(q);
    assert Members(Example, [Example]) == [Example];
    assert LiveOf(live, true, Example.databaseName) == ExampleRows(q);
  }

  /** Corrected, the same capture stores all 101 statements. */
  lemma CaptureStoresAllExampleStatements(q: string)
    ensures var o := Capture(Example, [Example], true, map["app" := ExampleRows(q)], 0);
      && o.resetIssued
      && |o.inserts| == 1 && o.inserts[0].Some? && |o.inserts[0].value.rows| == 101
  {
    var live := map["app" := ExampleRows(q)];
    assert ValidLive(live);
    ExampleMergesToItself(q);
    assert Members(Example, [Example]) == [Example];
    assert LiveOf(live, true, Example.databaseName) == ExampleRows(q);
    CaptureKeepsEveryStatement(Example, [Example], true, live, 0, 0);
  }
}
