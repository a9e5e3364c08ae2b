/** The query-statistics merge of lib/pghero/methods/query_stats.rb: rows from the
    live statistics view and from the historical capture table are merged by
    `[query_hash, user]`, merged again by `[normalize_query(query), user]`,
    given an average time and a share of the total, ranked, cut to the top 100
    and filtered. The two SQL reads are inputs: `live` is what
    `current_query_stats` returned and `hist` what `historical_query_stats`
    returned. The clock is the parameter `now`. */
module QueryStatsMethods {
  import opened Wrappers
  import opened Text
  import opened Normalizer
  import opened Grouping
  import opened Ranking

  /** One statistics row, as either SQL read returns it and as `combine_query_stats`
      returns it. Minutes are exact reals; `nil` columns are `None`. */
  datatype Row = Row(
    query: Option<string>,
    queryHash: Option<string>,
    user: Option<string>,
    totalMinutes: real,
    calls: int,
    allQueriesTotalMinutes: real,
    explainableQuery: Option<string>)

  /** A ranked entry: a combined row with the `average_time` (milliseconds) and
      `total_percent` that `query_stats` adds. `totalPercent` is `None` where Ruby's
      float division by a zero total would give NaN or Infinity. */
  datatype Stat = Stat(row: Row, averageTime: real, totalPercent: Option<real>)

  /** The `sort` option. */
  datatype SortKey = TotalMinutes | AverageTime | Calls

  /** The keyword options of `query_stats`. `start_at` only shapes the historical
      SQL read, whose result is the `hist` input, so it does not appear here. */
  datatype Options = Options(
    historical: bool,
    endAt: Option<int>,
    minAverageTime: Option<real>,
    minCalls: Option<int>,
    sort: SortKey)

  /** The grouping key of either merge pass: `[query_hash, user]` or
      `[normalize_query(query), user]`. */
  datatype GroupKey = GroupKey(id: Option<string>, user: Option<string>)

  function TotalMinutesOf(r: Row): real { r.totalMinutes }
  function CallsOf(r: Row): int { r.calls }
  function AllQueriesOf(r: Row): real { r.allQueriesTotalMinutes }
  predicate HasQuery(r: Row) { r.query.Some? }
  predicate HasUser(r: Row) { r.user.Some? }
  predicate HasExplainable(r: Row) {
    r.explainableQuery.Some? && Explainable(r.explainableQuery.value)
  }

  function HashKey(r: Row): GroupKey { GroupKey(r.queryHash, r.user) }
  function TextKey(r: Row): GroupKey { GroupKey(Some(NormalizeQuery(r.query)), r.user) }

  /** Both SQL reads compute `total_time / calls` for every row they return, so
      the database rejects the read before any row with zero calls reaches
      `query_stats`. */
  predicate ValidRows(rows: seq<Row>) {
    forall i :: 0 <= i < |rows| ==> rows[i].calls > 0
  }

  // ---------------------------------------------------------------------------
  // combine_query_stats

  /** One group of `combine_query_stats`: `query` and `query_hash` from the first
      row that has a query, `user` from the first row that has a user, summed
      minutes and calls, and the first explainable `explainable_query`. */
  function CombineGroup(g: seq<Row>): (r: Row)
    ensures r.query.None? <==> forall i :: 0 <= i < |g| ==> g[i].query.None?
    ensures r.query.Some? ==> exists i :: 0 <= i < |g| && g[i].query == r.query
                                && g[i].queryHash == r.queryHash && forall j :: 0 <= j < i ==> g[j].query.None?
    ensures r.query.None? ==> r.queryHash.None?
    ensures r.user.None? <==> forall i :: 0 <= i < |g| ==> g[i].user.None?
    ensures r.user.Some? ==> exists i :: 0 <= i < |g| && g[i].user == r.user
                               && forall j :: 0 <= j < i ==> g[j].user.None?
    ensures r.explainableQuery.Some? ==> Explainable(r.explainableQuery.value)
    ensures r.explainableQuery.Some? ==> exists i :: 0 <= i < |g|
                                           && g[i].explainableQuery == r.explainableQuery
                                           && forall j :: 0 <= j < i ==> !HasExplainable(g[j])
    ensures r.explainableQuery.None? <==> forall i :: 0 <= i < |g| ==> !HasExplainable(g[i])
    ensures r.totalMinutes == SumOf(g, TotalMinutesOf)
    ensures r.calls == SumInt(g, CallsOf)
    ensures r.allQueriesTotalMinutes == SumOf(g, AllQueriesOf)
  {
    var withQuery := Find(g, HasQuery);
    var withUser := Find(g, HasUser);
    var candidate := Find(g, HasExplainable);
    Row(
      query := if withQuery.Some? then withQuery.value.query else None,
      queryHash := if withQuery.Some? then withQuery.value.queryHash else None,
      user := if withUser.Some? then withUser.value.user else None,
      totalMinutes := SumOf(g, TotalMinutesOf),
      calls := SumInt(g, CallsOf),
      allQueriesTotalMinutes := SumOf(g, AllQueriesOf),
      explainableQuery := if candidate.Some? then candidate.value.explainableQuery else None)
  }

  /** `combine_query_stats`: one combined row per group, in group order. */
  function Combine(gs: seq<seq<Row>>): (r: seq<Row>)
    ensures |r| == |gs|
    ensures forall i :: 0 <= i < |gs| ==> r[i] == CombineGroup(gs[i])
    decreases |gs|
  {
    if gs == [] then [] else [CombineGroup(gs[0])] + Combine(gs[1..])
  }

  /** Combining keeps the total minutes and calls of all groups. */
  lemma {:induction false} CombineConserves(gs: seq<seq<Row>>)
    ensures SumOf(Combine(gs), TotalMinutesOf) == SumGroups(gs, TotalMinutesOf)
    ensures SumInt(Combine(gs), CallsOf) == SumGroupsInt(gs, CallsOf)
    decreases |gs|
  {
    if gs != [] {
      CombineConserves(gs[1..]);
      assert Combine(gs)[1..] == Combine(gs[1..]);
    }
  }

  /** A group whose rows share one normalized text and one user combines into a
      row with that same text key. */
  lemma CombinedQueryOccurs(g: seq<Row>) returns (i: nat)
    requires g != []
    ensures i < |g| && g[i].query == CombineGroup(g).query
  {
    if CombineGroup(g).query.Some? {
      i :| 0 <= i < |g| && g[i].query == CombineGroup(g).query;
    } else {
      i := 0;
    }
  }

  lemma CombinedUserOccurs(g: seq<Row>) returns (i: nat)
    requires g != []
    ensures i < |g| && g[i].user == CombineGroup(g).user
  {
    if CombineGroup(g).user.Some? {
      i :| 0 <= i < |g| && g[i].user == CombineGroup(g).user;
    } else {
      i := 0;
    }
  }

  lemma CombineKeepsTextKey(g: seq<Row>, k: GroupKey)
    requires g != [] && forall i :: 0 <= i < |g| ==> TextKey(g[i]) == k
    ensures TextKey(CombineGroup(g)) == k
  {
    var q := CombinedQueryOccurs(g);
    var u := CombinedUserOccurs(g);
    assert TextKey(g[q]) == k && TextKey(g[u]) == k;
  }

  /** The first merge pass, by `[query_hash, user]`. */
  function HashPass(rows: seq<Row>): seq<Row> {
    Combine(GroupBy(rows, HashKey))
  }

  /** The second merge pass, by `[normalize_query(query), user]`. */
  function TextPass(rows: seq<Row>): seq<Row> {
    Combine(GroupBy(rows, TextKey))
  }

  /** Both merge passes, as lines 8-9 chain them. */
  function MergeRows(rows: seq<Row>): seq<Row> {
    TextPass(HashPass(rows))
  }

  lemma PassConserves(rows: seq<Row>, key: Row -> GroupKey)
    ensures SumOf(Combine(GroupBy(rows, key)), TotalMinutesOf) == SumOf(rows, TotalMinutesOf)
    ensures SumInt(Combine(GroupBy(rows, key)), CallsOf) == SumInt(rows, CallsOf)
  {
    CombineConserves(GroupBy(rows, key));
    GroupByConservesSum(rows, key, TotalMinutesOf);
    GroupByConservesSumInt(rows, key, CallsOf);
  }

  /** Conservation: the merged rows carry exactly the minutes and calls of the input. */
  lemma MergeConserves(rows: seq<Row>)
    ensures SumOf(MergeRows(rows), TotalMinutesOf) == SumOf(rows, TotalMinutesOf)
    ensures SumInt(MergeRows(rows), CallsOf) == SumInt(rows, CallsOf)
  {
    PassConserves(rows, HashKey);
    PassConserves(HashPass(rows), TextKey);
  }

  /** After the second pass no two rows share a normalized text and user. */
  lemma MergeKeysDistinct(rows: seq<Row>)
    ensures forall i, j :: 0 <= i < j < |MergeRows(rows)| ==>
      TextKey(MergeRows(rows)[i]) != TextKey(MergeRows(rows)[j])
  {
    TextPassKeysDistinct(HashPass(rows));
  }

  lemma TextPassKeysDistinct(rows: seq<Row>)
    ensures forall i, j :: 0 <= i < j < |TextPass(rows)| ==>
      TextKey(TextPass(rows)[i]) != TextKey(TextPass(rows)[j])
  {
    var gs := GroupBy(rows, TextKey);
    GroupByShape(rows, TextKey);
    forall i | 0 <= i < |gs| ensures gs[i] != [] && TextKey(CombineGroup(gs[i])) == TextKey(gs[i][0]) {
      CombineKeepsTextKey(gs[i], TextKey(gs[i][0]));
    }
    CombinedKeysDistinct(gs, TextKey);
  }

  /** Groups with distinct keys combine into rows with distinct keys, when
      combining keeps a group's key. */
  lemma CombinedKeysDistinct(gs: seq<seq<Row>>, key: Row -> GroupKey)
    requires forall i :: 0 <= i < |gs| ==> gs[i] != [] && key(CombineGroup(gs[i])) == key(gs[i][0])
    requires forall i, j :: 0 <= i < j < |gs| ==> key(gs[i][0]) != key(gs[j][0])
    ensures forall i, j :: 0 <= i < j < |Combine(gs)| ==> key(Combine(gs)[i]) != key(Combine(gs)[j])
  {
  }

  /** The merge produces rows exactly when it is given rows. */
  lemma MergeEmpty(rows: seq<Row>)
    ensures MergeRows(rows) == [] <==> rows == []
  {
    GroupByEmpty(rows, HashKey);
    GroupByEmpty(HashPass(rows), TextKey);
  }

  /** A row that combines into itself: its hash comes with its query, and its
      explainable query, if any, is explainable. */
  predicate SelfContained(r: Row) {
    && (r.query.None? ==> r.queryHash.None?)
    && (r.explainableQuery.Some? ==> Explainable(r.explainableQuery.value))
  }

  lemma CombineSingleton(r: Row)
    requires SelfContained(r)
    ensures CombineGroup([r]) == r
  {
    assert SumOf([r], TotalMinutesOf) == r.totalMinutes + SumOf([], TotalMinutesOf);
    assert SumOf([r], AllQueriesOf) == r.allQueriesTotalMinutes + SumOf([], AllQueriesOf);
    assert SumInt([r], CallsOf) == r.calls + SumInt([], CallsOf);
  }

  /** A pass over rows whose keys are all distinct changes nothing. */
  lemma PassOnDistinctKeys(rows: seq<Row>, key: Row -> GroupKey)
    requires forall i, j :: 0 <= i < j < |rows| ==> key(rows[i]) != key(rows[j])
    requires forall i :: 0 <= i < |rows| ==> SelfContained(rows[i])
    ensures Combine(GroupBy(rows, key)) == rows
  {
    GroupByDistinctKeys(rows, key);
    forall i | 0 <= i < |rows| ensures Combine(GroupBy(rows, key))[i] == rows[i] {
      CombineSingleton(rows[i]);
    }
  }

  lemma PassKeepsCallsPositive(rows: seq<Row>, key: Row -> GroupKey)
    requires ValidRows(rows)
    ensures ValidRows(Combine(GroupBy(rows, key)))
  {
    var gs := GroupBy(rows, key);
    GroupBySpec(rows, key);
    GroupByShape(rows, key);
    forall i | 0 <= i < |gs| ensures SumInt(gs[i], CallsOf) > 0 {
      var ks := Keys(rows, key);
      assert gs[i] == Select(rows, key, ks[i]);
      SelectFromValid(rows, key, ks[i]);
      SumIntPositive(gs[i], CallsOf);
    }
  }

  lemma {:induction false} SelectFromValid(rows: seq<Row>, key: Row -> GroupKey, k: GroupKey)
    requires ValidRows(rows)
    ensures ValidRows(Select(rows, key, k))
    decreases |rows|
  {
    if rows != [] {
      var p := rows[..|rows| - 1];
      assert ValidRows(p) by {
        assert forall i :: 0 <= i < |p| ==> p[i] == rows[i];
      }
      SelectFromValid(p, key, k);
    }
  }

  /** Every merged row has a positive call count, so the average is defined. */
  lemma MergeCallsPositive(rows: seq<Row>)
    requires ValidRows(rows)
    ensures ValidRows(MergeRows(rows))
  {
    PassKeepsCallsPositive(rows, HashKey);
    PassKeepsCallsPositive(HashPass(rows), TextKey);
  }

  // ---------------------------------------------------------------------------
  // query_stats

  /** The live rows a `query_stats` uses: none when a historical window ends in the past. */
  function SelectLive<R>(live: seq<R>, historical: bool, endAt: Option<int>, now: int): seq<R> {
    if historical && endAt.Some? && endAt.value < now then [] else live
  }

  /** The historical rows a `query_stats` uses: none unless `historical` is set. */
  function SelectHistorical<R>(hist: seq<R>, historical: bool): seq<R> {
    if historical then hist else []
  }

  function LiveInput(live: seq<Row>, opts: Options, now: int): seq<Row> {
    SelectLive(live, opts.historical, opts.endAt, now)
  }

  function HistInput(hist: seq<Row>, opts: Options): seq<Row> {
    SelectHistorical(hist, opts.historical)
  }

  /** What the caller of `query_stats` must supply: the SQL reads that are used
      returned rows with positive call counts. */
  predicate ValidInputs(live: seq<Row>, hist: seq<Row>, opts: Options, now: int) {
    ValidRows(LiveInput(live, opts, now)) && ValidRows(HistInput(hist, opts))
  }

  /** `all_queries_total_minutes` of line 12: for each source, that of its first
      row, or 0 for an empty source. */
  function AllQueriesTotal(live: seq<Row>, hist: seq<Row>): real {
    (if live == [] then 0.0 else live[0].allQueriesTotalMinutes)
    + (if hist == [] then 0.0 else hist[0].allQueriesTotalMinutes)
  }

  /** Lines 14-15 for one row. */
  function WithMetrics(r: Row, allTotal: real): (s: Stat)
    requires r.calls > 0
    ensures s.row == r
    ensures s.averageTime * (r.calls as real) == r.totalMinutes * 60000.0
    ensures s.totalPercent.None? <==> allTotal == 0.0
    ensures s.totalPercent.Some? ==> s.totalPercent.value * allTotal == r.totalMinutes * 100.0
  {
    Stat(r, r.totalMinutes * 1000.0 * 60.0 / (r.calls as real),
         if allTotal == 0.0 then None else Some(r.totalMinutes * 100.0 / allTotal))
  }

  function AddMetrics(rows: seq<Row>, allTotal: real): (r: seq<Stat>)
    requires ValidRows(rows)
    ensures |r| == |rows|
    ensures forall i :: 0 <= i < |rows| ==> r[i] == WithMetrics(rows[i], allTotal)
    decreases |rows|
  {
    if rows == [] then [] else [WithMetrics(rows[0], allTotal)] + AddMetrics(rows[1..], allTotal)
  }

  /** The merged rows with their metrics, before ranking (end of line 16). */
  function Merged(live: seq<Row>, hist: seq<Row>, opts: Options, now: int): seq<Stat>
    requires ValidInputs(live, hist, opts, now)
  {
    var l := LiveInput(live, opts, now);
    var h := HistInput(hist, opts);
    assert ValidRows(l + h);
    MergeCallsPositive(l + h);
    AddMetrics(MergeRows(l + h), AllQueriesTotal(l, h))
  }

  /** Without `historical`, the merged rows are those of the live rows alone. */
  lemma MergedLiveOnly(rows: seq<Row>, opts: Options, now: int)
    requires !opts.historical && ValidRows(rows)
    ensures ValidInputs(rows, [], opts, now)
    ensures |Merged(rows, [], opts, now)| == |MergeRows(rows)|
  {
    assert rows + [] == rows;
  }

  function SortValue(sort: SortKey, s: Stat): real {
    match sort
    case TotalMinutes => s.row.totalMinutes
    case AverageTime => s.averageTime
    case Calls => s.row.calls as real
  }

  function SortFn(sort: SortKey): Stat -> real {
    (s: Stat) => SortValue(sort, s)
  }

  /** The `reject!` of line 21, as the predicate of what it keeps. */
  function MinAverageTimeFilter(min: Option<real>): Stat -> bool {
    (s: Stat) => min.None? || s.averageTime >= min.value
  }

  /** The `reject!` of line 24, as the predicate of what it keeps. */
  function MinCallsFilter(min: Option<int>): Stat -> bool {
    (s: Stat) => min.None? || s.row.calls >= min.value
  }

  predicate PassesFilters(opts: Options, s: Stat) {
    && (opts.minAverageTime.None? || s.averageTime >= opts.minAverageTime.value)
    && (opts.minCalls.None? || s.row.calls >= opts.minCalls.value)
  }

  /** The rows ranked by the sort key and cut to the first 100 (line 19). */
  function Top(ms: seq<Stat>, sort: SortKey): seq<Stat> {
    Take(SortDesc(ms, SortFn(sort)), 100)
  }

  /** The cut keeps the 100 highest-ranked rows (all of them when there are
      fewer), in rank order: every copy of a row that was cut ranks no higher
      than any row that was kept. */
  lemma TopIsRanked(ms: seq<Stat>, sort: SortKey)
    ensures |Top(ms, sort)| == if |ms| < 100 then |ms| else 100
    ensures forall i, j :: 0 <= i < j < |Top(ms, sort)| ==>
      SortValue(sort, Top(ms, sort)[i]) >= SortValue(sort, Top(ms, sort)[j])
    ensures multiset(Top(ms, sort)) <= multiset(ms)
    ensures forall s :: multiset(Top(ms, sort))[s] < multiset(ms)[s] ==>
      forall i :: 0 <= i < |Top(ms, sort)| ==> SortValue(sort, Top(ms, sort)[i]) >= SortValue(sort, s)
  {
    var ranked := SortDesc(ms, SortFn(sort));
    assert |ranked| == |ms| by {
      assert |multiset(ranked)| == |multiset(ms)|;
    }
    PrefixRanked(ranked, sort, 100);
    PrefixBeatsRest(ranked, sort, 100);
  }

  /** The first `n` entries of a ranked list are in rank order. */
  lemma PrefixRanked(ranked: seq<Stat>, sort: SortKey, n: nat)
    requires SortedDesc(ranked, SortFn(sort))
    ensures forall i, j :: 0 <= i < j < |Take(ranked, n)| ==>
      SortValue(sort, Take(ranked, n)[i]) >= SortValue(sort, Take(ranked, n)[j])
  {
    var top := Take(ranked, n);
    forall i, j | 0 <= i < j < |top| ensures SortValue(sort, top[i]) >= SortValue(sort, top[j]) {
      assert SortFn(sort)(ranked[i]) >= SortFn(sort)(ranked[j]);
    }
  }

  /** Of a ranked list, whatever lies past the first `n` entries ranks no higher
      than any of them. */
  lemma PrefixBeatsRest(ranked: seq<Stat>, sort: SortKey, n: nat)
    requires SortedDesc(ranked, SortFn(sort))
    ensures multiset(Take(ranked, n)) <= multiset(ranked)
    ensures forall s :: multiset(Take(ranked, n))[s] < multiset(ranked)[s] ==>
      forall i :: 0 <= i < |Take(ranked, n)| ==> SortValue(sort, Take(ranked, n)[i]) >= SortValue(sort, s)
  {
    var top := Take(ranked, n);
    var m := |top|;
    assert ranked == top + ranked[m..];
    assert multiset(ranked) == multiset(top) + multiset(ranked[m..]);
    forall s | multiset(top)[s] < multiset(ranked)[s]
      ensures forall i :: 0 <= i < m ==> SortValue(sort, top[i]) >= SortValue(sort, s)
    {
      assert s in multiset(ranked[m..]);
      var k :| 0 <= k < |ranked[m..]| && ranked[m..][k] == s;
      forall i | 0 <= i < m ensures SortValue(sort, top[i]) >= SortValue(sort, s) {
        assert SortFn(sort)(ranked[i]) >= SortFn(sort)(ranked[m + k]);
      }
    }
  }

  /** `query_stats`. The result holds at most 100 entries, in non-increasing order
      of the sort key, each drawn from the merged rows and passing both filters.
      The filters run after the cut: a merged row that passes them but is missing
      was cut, which happens only when more than 100 rows were merged, and then
      every returned row ranks at least as high as it. */
  function QueryStats(live: seq<Row>, hist: seq<Row>, opts: Options, now: int): (r: seq<Stat>)
    requires ValidInputs(live, hist, opts, now)
    ensures |r| <= 100
    ensures forall i, j :: 0 <= i < j < |r| ==> SortValue(opts.sort, r[i]) >= SortValue(opts.sort, r[j])
    ensures forall i :: 0 <= i < |r| ==> PassesFilters(opts, r[i])
    ensures forall i :: 0 <= i < |r| ==> r[i] in Merged(live, hist, opts, now)
    ensures forall s :: s in Merged(live, hist, opts, now) && PassesFilters(opts, s) && s !in r ==>
      |Merged(live, hist, opts, now)| > 100
      && forall i :: 0 <= i < |r| ==> SortValue(opts.sort, r[i]) >= SortValue(opts.sort, s)
    ensures IsSubseq(r, Top(Merged(live, hist, opts, now), opts.sort))
    ensures forall i :: 0 <= i < |Top(Merged(live, hist, opts, now), opts.sort)| &&
                        PassesFilters(opts, Top(Merged(live, hist, opts, now), opts.sort)[i]) ==>
                          Top(Merged(live, hist, opts, now), opts.sort)[i] in r
  {
    var ms := Merged(live, hist, opts, now);
    var top := Top(ms, opts.sort);
    var byTime := Keep(top, MinAverageTimeFilter(opts.minAverageTime));
    var r := Keep(byTime, MinCallsFilter(opts.minCalls));
    QueryStatsRanking(ms, opts, top, byTime, r);
    r
  }

  lemma QueryStatsRanking(ms: seq<Stat>, opts: Options, top: seq<Stat>, byTime: seq<Stat>, r: seq<Stat>)
    requires top == Top(ms, opts.sort)
    requires byTime == Keep(top, MinAverageTimeFilter(opts.minAverageTime))
    requires r == Keep(byTime, MinCallsFilter(opts.minCalls))
    ensures |r| <= 100
    ensures forall i, j :: 0 <= i < j < |r| ==> SortValue(opts.sort, r[i]) >= SortValue(opts.sort, r[j])
    ensures forall i :: 0 <= i < |r| ==> PassesFilters(opts, r[i])
    ensures forall i :: 0 <= i < |r| ==> r[i] in ms
    ensures forall s :: s in ms && PassesFilters(opts, s) && s !in r ==>
      |ms| > 100 && forall i :: 0 <= i < |r| ==> SortValue(opts.sort, r[i]) >= SortValue(opts.sort, s)
    ensures IsSubseq(r, top)
    ensures forall i :: 0 <= i < |top| && PassesFilters(opts, top[i]) ==> top[i] in r
  {
    SubseqTrans(r, byTime, top);
    forall i | 0 <= i < |top| && PassesFilters(opts, top[i]) ensures top[i] in r {
      PassingIsKept(opts, top, byTime, r, top[i]);
    }
    var ranked := SortDesc(ms, SortFn(opts.sort));
    FilteredOrder(ranked, opts, top, byTime, r);
    FilteredMembers(ms, ranked, opts, top, byTime, r);
    forall s | s in ms && PassesFilters(opts, s) && s !in r
      ensures |ms| > 100 && forall i :: 0 <= i < |r| ==> SortValue(opts.sort, r[i]) >= SortValue(opts.sort, s)
    {
      MissingWasCut(ms, ranked, opts, top, byTime, r, s);
    }
  }

  /** The filtered list is short and still in rank order. */
  lemma FilteredOrder(ranked: seq<Stat>, opts: Options, top: seq<Stat>, byTime: seq<Stat>, r: seq<Stat>)
    requires SortedDesc(ranked, SortFn(opts.sort))
    requires top == Take(ranked, 100)
    requires byTime == Keep(top, MinAverageTimeFilter(opts.minAverageTime))
    requires r == Keep(byTime, MinCallsFilter(opts.minCalls))
    ensures |r| <= 100
    ensures forall i, j :: 0 <= i < j < |r| ==> SortValue(opts.sort, r[i]) >= SortValue(opts.sort, r[j])
  {
    var key := SortFn(opts.sort);
    assert SortedDesc(top, key) by {
      forall i, j | 0 <= i < j < |top| ensures key(top[i]) >= key(top[j]) {
        assert top[i] == ranked[i] && top[j] == ranked[j];
      }
    }
    SubseqKeepsOrder(byTime, top, key);
    SubseqKeepsOrder(r, byTime, key);
    forall i, j | 0 <= i < j < |r| ensures SortValue(opts.sort, r[i]) >= SortValue(opts.sort, r[j]) {
      assert key(r[i]) >= key(r[j]);
    }
  }

  /** Every returned entry is a merged row that passes both filters. */
  lemma FilteredMembers(ms: seq<Stat>, ranked: seq<Stat>, opts: Options, top: seq<Stat>, byTime: seq<Stat>, r: seq<Stat>)
    requires multiset(ranked) == multiset(ms)
    requires top == Take(ranked, 100)
    requires byTime == Keep(top, MinAverageTimeFilter(opts.minAverageTime))
    requires r == Keep(byTime, MinCallsFilter(opts.minCalls))
    ensures forall i :: 0 <= i < |r| ==> PassesFilters(opts, r[i]) && r[i] in ms
  {
    SubseqMembers(byTime, top);
    SubseqMembers(r, byTime);
    forall i | 0 <= i < |r| ensures PassesFilters(opts, r[i]) && r[i] in ms {
      var b :| 0 <= b < |byTime| && byTime[b] == r[i];
      assert MinAverageTimeFilter(opts.minAverageTime)(byTime[b]);
      assert MinCallsFilter(opts.minCalls)(r[i]);
      var t :| 0 <= t < |top| && top[t] == r[i];
      assert top[t] == ranked[t];
      assert ranked[t] in multiset(ranked);
    }
  }

  /** An entry of the top 100 that passes both filters survives them. */
  lemma PassingIsKept(opts: Options, top: seq<Stat>, byTime: seq<Stat>, r: seq<Stat>, s: Stat)
    requires byTime == Keep(top, MinAverageTimeFilter(opts.minAverageTime))
    requires r == Keep(byTime, MinCallsFilter(opts.minCalls))
    requires s in top && PassesFilters(opts, s)
    ensures s in r
  {
    var t :| 0 <= t < |top| && top[t] == s;
    assert MinAverageTimeFilter(opts.minAverageTime)(top[t]);
    var b :| 0 <= b < |byTime| && byTime[b] == s;
    assert MinCallsFilter(opts.minCalls)(byTime[b]);
  }

  /** A merged row that passes both filters and is not returned was cut at 100,
      below every returned entry. */
  lemma MissingWasCut(ms: seq<Stat>, ranked: seq<Stat>, opts: Options, top: seq<Stat>, byTime: seq<Stat>,
                      r: seq<Stat>, s: Stat)
    requires SortedDesc(ranked, SortFn(opts.sort)) && multiset(ranked) == multiset(ms)
    requires top == Take(ranked, 100)
    requires byTime == Keep(top, MinAverageTimeFilter(opts.minAverageTime))
    requires r == Keep(byTime, MinCallsFilter(opts.minCalls))
    requires s in ms && PassesFilters(opts, s) && s !in r
    ensures |ms| > 100 && forall i :: 0 <= i < |r| ==> SortValue(opts.sort, r[i]) >= SortValue(opts.sort, s)
  {
    var key := SortFn(opts.sort);
    if s in top {
      PassingIsKept(opts, top, byTime, r, s);
    }
    assert s in multiset(ranked);
    var k :| 0 <= k < |ranked| && ranked[k] == s;
    assert k >= |top|;
    assert |ranked| == |ms| by {
      assert |multiset(ranked)| == |multiset(ms)|;
    }
    SubseqMembers(byTime, top);
    SubseqMembers(r, byTime);
    forall i | 0 <= i < |r| ensures SortValue(opts.sort, r[i]) >= SortValue(opts.sort, s) {
      var b :| 0 <= b < |byTime| && byTime[b] == r[i];
      var t :| 0 <= t < |top| && top[t] == r[i];
      assert top[t] == ranked[t];
      assert key(ranked[t]) >= key(ranked[k]);
    }
  }

  /** Without filters, `query_stats` returns the first 100 ranked rows, or all of
      them when there are fewer. */
  lemma UnfilteredCount(live: seq<Row>, hist: seq<Row>, opts: Options, now: int)
    requires ValidInputs(live, hist, opts, now)
    requires opts.minAverageTime.None? && opts.minCalls.None?
    ensures var n := |Merged(live, hist, opts, now)|;
      |QueryStats(live, hist, opts, now)| == if n < 100 then n else 100
  {
    var ms := Merged(live, hist, opts, now);
    var ranked := SortDesc(ms, SortFn(opts.sort));
    assert |ranked| == |ms| by {
      assert |multiset(ranked)| == |multiset(ms)|;
    }
    var top := Top(ms, opts.sort);
    KeepAll(top, MinAverageTimeFilter(opts.minAverageTime));
    KeepAll(top, MinCallsFilter(opts.minCalls));
  }

  /** A historical window that ends in the past ignores the live rows entirely. */
  lemma PastWindowIgnoresLive(live1: seq<Row>, live2: seq<Row>, hist: seq<Row>, opts: Options, now: int)
    requires opts.historical && opts.endAt.Some? && opts.endAt.value < now
    requires ValidRows(hist)
    ensures QueryStats(live1, hist, opts, now) == QueryStats(live2, hist, opts, now)
  {
  }

  /** Without `historical` the historical rows are never consulted. */
  lemma LiveOnlyIgnoresHistory(live: seq<Row>, hist1: seq<Row>, hist2: seq<Row>, opts: Options, now: int)
    requires !opts.historical && ValidRows(live)
    ensures QueryStats(live, hist1, opts, now) == QueryStats(live, hist2, opts, now)
  {
  }

  function PercentOf(s: Stat): real {
    s.totalPercent.GetOr(0.0)
  }

  lemma {:induction false} PercentSum(rows: seq<Row>, allTotal: real)
    requires ValidRows(rows) && allTotal != 0.0
    ensures SumOf(AddMetrics(rows, allTotal), PercentOf) * allTotal == SumOf(rows, TotalMinutesOf) * 100.0
    decreases |rows|
  {
    if rows != [] {
      var ms := AddMetrics(rows, allTotal);
      PercentSum(rows[1..], allTotal);
      assert ms[1..] == AddMetrics(rows[1..], allTotal);
      var p := PercentOf(ms[0]);
      assert p * allTotal == rows[0].totalMinutes * 100.0;
      calc {
        SumOf(ms, PercentOf) * allTotal;
        (p + SumOf(ms[1..], PercentOf)) * allTotal;
        p * allTotal + SumOf(ms[1..], PercentOf) * allTotal;
      }
    }
  }

  /** Each source's rows all carry the total minutes of exactly the rows returned,
      which holds when the SQL read's LIMIT cut nothing. */
  predicate CarriesOwnTotal(rows: seq<Row>) {
    forall i :: 0 <= i < |rows| ==> rows[i].allQueriesTotalMinutes == SumOf(rows, TotalMinutesOf)
  }

  lemma {:induction false} SumOfConcat(a: seq<Row>, b: seq<Row>)
    ensures SumOf(a + b, TotalMinutesOf) == SumOf(a, TotalMinutesOf) + SumOf(b, TotalMinutesOf)
    decreases |a|
  {
    if a == [] {
      assert a + b == b;
    } else {
      assert (a + b)[1..] == a[1..] + b;
      SumOfConcat(a[1..], b);
    }
  }

  /** When neither source was cut by its LIMIT and the total is not zero, the
      percentages of the merged rows add up to exactly 100. */
  lemma PercentagesSumTo100(live: seq<Row>, hist: seq<Row>, opts: Options, now: int)
    requires ValidInputs(live, hist, opts, now)
    requires CarriesOwnTotal(LiveInput(live, opts, now)) && CarriesOwnTotal(HistInput(hist, opts))
    requires AllQueriesTotal(LiveInput(live, opts, now), HistInput(hist, opts)) != 0.0
    ensures SumOf(Merged(live, hist, opts, now), PercentOf) == 100.0
  {
    var l := LiveInput(live, opts, now);
    var h := HistInput(hist, opts);
    assert ValidRows(l + h);
    MergeCallsPositive(l + h);
    OwnTotals(l, h);
    MergedPercentages(l + h, AllQueriesTotal(l, h));
  }

  /** When each source carries its own total, the denominator is the total of
      both sources together. */
  lemma OwnTotals(l: seq<Row>, h: seq<Row>)
    requires CarriesOwnTotal(l) && CarriesOwnTotal(h)
    ensures AllQueriesTotal(l, h) == SumOf(l + h, TotalMinutesOf)
  {
    SumOfConcat(l, h);
  }

  lemma MergedPercentages(rows: seq<Row>, a: real)
    requires ValidRows(rows) && ValidRows(MergeRows(rows))
    requires a != 0.0 && a == SumOf(rows, TotalMinutesOf)
    ensures SumOf(AddMetrics(MergeRows(rows), a), PercentOf) == 100.0
  {
    MergeConserves(rows);
    PercentagesOfTotal(MergeRows(rows), a);
  }

  /** Percentages taken over the rows' own non-zero total add up to 100. */
  lemma PercentagesOfTotal(rows: seq<Row>, a: real)
    requires ValidRows(rows) && a != 0.0 && a == SumOf(rows, TotalMinutesOf)
    ensures SumOf(AddMetrics(rows, a), PercentOf) == 100.0
  {
    var x := SumOf(AddMetrics(rows, a), PercentOf);
    PercentSum(rows, a);
    CancelNonZero(x, SumOf(rows, TotalMinutesOf), a);
  }

  lemma CancelNonZero(x: real, m: real, a: real)
    requires a != 0.0 && m == a && x * a == m * 100.0
    ensures x == 100.0
  {
    assert (x - 100.0) * a == 0.0;
  }

  function StatMinutes(s: Stat): real {
    s.row.totalMinutes
  }

  function StatCalls(s: Stat): int {
    s.row.calls
  }

  /** Adding metrics keeps the calls of every row. */
  lemma {:induction false} MetricsKeepCalls(rows: seq<Row>, allTotal: real)
    requires ValidRows(rows)
    ensures SumInt(AddMetrics(rows, allTotal), StatCalls) == SumInt(rows, CallsOf)
    decreases |rows|
  {
    if rows != [] {
      MetricsKeepCalls(rows[1..], allTotal);
      assert AddMetrics(rows, allTotal)[1..] == AddMetrics(rows[1..], allTotal);
    }
  }

  /** What lines 5-16 produce before ranking: one entry per normalized text and
      user, entries exactly when some rows were read, the minutes and calls of
      all rows read, and each entry's average and share of the total. */
  lemma MergedSpec(live: seq<Row>, hist: seq<Row>, opts: Options, now: int, ms: seq<Stat>)
    requires ValidInputs(live, hist, opts, now) && ms == Merged(live, hist, opts, now)
    ensures ms == [] <==> LiveInput(live, opts, now) + HistInput(hist, opts) == []
    ensures SumOf(ms, StatMinutes) == SumOf(LiveInput(live, opts, now) + HistInput(hist, opts), TotalMinutesOf)
    ensures SumInt(ms, StatCalls) == SumInt(LiveInput(live, opts, now) + HistInput(hist, opts), CallsOf)
    ensures forall i, j :: 0 <= i < j < |ms| ==> TextKey(ms[i].row) != TextKey(ms[j].row)
    ensures forall i :: 0 <= i < |ms| ==>
      ms[i].row.calls > 0 && ms[i].averageTime * (ms[i].row.calls as real) == ms[i].row.totalMinutes * 60000.0
    ensures forall i :: 0 <= i < |ms| ==>
      (ms[i].totalPercent.None? <==> AllQueriesTotal(LiveInput(live, opts, now), HistInput(hist, opts)) == 0.0)
  {
    var rows := LiveInput(live, opts, now) + HistInput(hist, opts);
    var a := AllQueriesTotal(LiveInput(live, opts, now), HistInput(hist, opts));
    assert ValidRows(rows);
    MergeCallsPositive(rows);
    assert ms == AddMetrics(MergeRows(rows), a);
    MergeEmpty(rows);
    MergeConserves(rows);
    MetricsKeepMinutes(MergeRows(rows), a);
    MetricsKeepCalls(MergeRows(rows), a);
    MergeKeysDistinct(rows);
    EntryMetrics(MergeRows(rows), a, ms);
  }

  /** Every entry with metrics has a positive call count, its average and its share. */
  lemma EntryMetrics(rows: seq<Row>, a: real, ms: seq<Stat>)
    requires ValidRows(rows) && ms == AddMetrics(rows, a)
    ensures forall i :: 0 <= i < |ms| ==>
      ms[i].row.calls > 0 && ms[i].averageTime * (ms[i].row.calls as real) == ms[i].row.totalMinutes * 60000.0
    ensures forall i :: 0 <= i < |ms| ==> (ms[i].totalPercent.None? <==> a == 0.0)
  {
    forall i | 0 <= i < |ms|
      ensures ms[i].row.calls > 0 && ms[i].averageTime * (ms[i].row.calls as real) == ms[i].row.totalMinutes * 60000.0
    {
      var w := WithMetrics(rows[i], a);
      assert w.averageTime * (w.row.calls as real) == w.row.totalMinutes * 60000.0;
      assert ms[i] == w;
    }
  }

  /** Adding metrics keeps the minutes of every row. */
  lemma {:induction false} MetricsKeepMinutes(rows: seq<Row>, allTotal: real)
    requires ValidRows(rows)
    ensures SumOf(AddMetrics(rows, allTotal), StatMinutes) == SumOf(rows, TotalMinutesOf)
    decreases |rows|
  {
    if rows != [] {
      MetricsKeepMinutes(rows[1..], allTotal);
      assert AddMetrics(rows, allTotal)[1..] == AddMetrics(rows[1..], allTotal);
    }
  }

  // ---------------------------------------------------------------------------
  // slow_queries

  /** Ruby's `Float#to_i`: truncation toward zero. */
  function TruncateToInt(x: real): (n: int)
    ensures x >= 0.0 ==> n as real <= x < n as real + 1.0
    ensures x < 0.0 ==> n as real - 1.0 < x <= n as real
  {
    if x >= 0.0 then x.Floor else -((-x).Floor)
  }

  /** For a non-negative average, the truncated comparison is the plain one. */
  lemma TruncatedThreshold(x: real, m: int)
    requires x >= 0.0
    ensures TruncateToInt(x) >= m <==> x >= m as real
  {
  }

  /** The test `slow_queries` applies to each entry. */
  predicate IsSlow(calls: int, averageTime: real, slowQueryMs: int, slowQueryCalls: int) {
    calls >= slowQueryCalls && TruncateToInt(averageTime) >= slowQueryMs
  }

  /** The thresholds used when the environment sets none. */
  const DefaultSlowQueryMs := 20
  const DefaultSlowQueryCalls := 100

  /** With the default thresholds, a non-negative average is slow exactly when
      it reaches 20 ms over at least 100 calls. */
  lemma DefaultSlowness(calls: int, averageTime: real)
    requires averageTime >= 0.0
    ensures IsSlow(calls, averageTime, DefaultSlowQueryMs, DefaultSlowQueryCalls)
      <==> calls >= 100 && averageTime >= 20.0
  {
    TruncatedThreshold(averageTime, DefaultSlowQueryMs);
  }

  function SlowFilter(slowQueryMs: int, slowQueryCalls: int): Stat -> bool {
    (s: Stat) => IsSlow(s.row.calls, s.averageTime, slowQueryMs, slowQueryCalls)
  }

  /** `r` keeps, in order, exactly the entries of `source` that are slow. */
  predicate SlowSelection(r: seq<Stat>, source: seq<Stat>, slowQueryMs: int, slowQueryCalls: int) {
    && IsSubseq(r, source)
    && (forall i :: 0 <= i < |r| ==> IsSlow(r[i].row.calls, r[i].averageTime, slowQueryMs, slowQueryCalls))
    && (forall i :: 0 <= i < |source| && IsSlow(source[i].row.calls, source[i].averageTime, slowQueryMs, slowQueryCalls)
          ==> source[i] in r)
  }

  function SlowOf(source: seq<Stat>, slowQueryMs: int, slowQueryCalls: int): (r: seq<Stat>)
    ensures SlowSelection(r, source, slowQueryMs, slowQueryCalls)
  {
    Keep(source, SlowFilter(slowQueryMs, slowQueryCalls))
  }

  /** `slow_queries`: the given entries, or `query_stats` when none are given,
      keeping in order exactly those whose calls and truncated average reach the
      thresholds. */
  function SlowQueries(given: Option<seq<Stat>>, live: seq<Row>, hist: seq<Row>, opts: Options, now: int,
                       slowQueryMs: int, slowQueryCalls: int): (r: seq<Stat>)
    requires given.None? ==> ValidInputs(live, hist, opts, now)
    ensures given.Some? ==> SlowSelection(r, given.value, slowQueryMs, slowQueryCalls)
    ensures given.None? ==> SlowSelection(r, QueryStats(live, hist, opts, now), slowQueryMs, slowQueryCalls)
  {
    if given.Some? then SlowOf(given.value, slowQueryMs, slowQueryCalls)
    else SlowOf(QueryStats(live, hist, opts, now), slowQueryMs, slowQueryCalls)
  }
}
