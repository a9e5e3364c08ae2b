/** The older `query_stats` and `slow_queries` of lib/pghero.rb, which merge the
    live and historical rows by exact query text rather than by hash and
    normalized text. Within each source the last row with a given text wins;
    a text missing from one source contributes nothing from it. */
module Legacy {
  import opened Wrappers
  import opened Grouping
  import opened Ranking
  import opened QueryStatsMethods

  /** A row of the older SQL reads: text, minutes, calls and the source's total. */
  datatype LegacyRow = LegacyRow(query: string, totalMinutes: real, calls: int, allQueriesTotalMinutes: real)

  /** An entry of the older `query_stats`. */
  datatype LegacyStat = LegacyStat(
    query: string,
    totalMinutes: real,
    calls: int,
    averageTime: real,
    totalPercent: Option<real>)

  /** The options the older `query_stats` reads. */
  datatype LegacyOptions = LegacyOptions(historical: bool, endAt: Option<int>, sort: SortKey)

  function QueryOf(r: LegacyRow): string { r.query }

  /** Both older SQL reads divide by the call count of every row they return. */
  predicate ValidLegacy(rows: seq<LegacyRow>) {
    forall i :: 0 <= i < |rows| ==> rows[i].calls > 0
  }

  /** The last row carrying text `q`, if any: a reference for what `index_by` keeps. */
  function Last(rows: seq<LegacyRow>, q: string): (r: Option<LegacyRow>)
    ensures r.None? <==> forall i :: 0 <= i < |rows| ==> rows[i].query != q
    ensures r.Some? ==> exists i :: 0 <= i < |rows| && rows[i] == r.value && rows[i].query == q
                                    && forall j :: i < j < |rows| ==> rows[j].query != q
    decreases |rows|
  {
    if rows == [] then None
    else if rows[|rows| - 1].query == q then Some(rows[|rows| - 1])
    else
      var p := rows[..|rows| - 1];
      assert forall i :: 0 <= i < |p| ==> rows[i] == p[i];
      Last(p, q)
  }

  /** Looking a text up in the `index_by` hash finds its last row. */
  lemma IndexByIsLast(rows: seq<LegacyRow>, q: string)
    ensures q in IndexBy(rows, QueryOf) <==> Last(rows, q).Some?
    ensures q in IndexBy(rows, QueryOf) ==> IndexBy(rows, QueryOf)[q] == Last(rows, q).value
  {
    if q in IndexBy(rows, QueryOf) {
      IndexByKeepsLast(rows, QueryOf, q);
      var i :| 0 <= i < |rows| && rows[i] == IndexBy(rows, QueryOf)[q] && QueryOf(rows[i]) == q
               && forall j :: i < j < |rows| ==> QueryOf(rows[j]) != q;
      var k :| 0 <= k < |rows| && rows[k] == Last(rows, q).value && rows[k].query == q
               && forall j :: k < j < |rows| ==> rows[j].query != q;
      assert i == k;
    }
  }

  /** `.to_f` of a column of the looked-up row; a missing text reads `{}`, whose
      `nil` converts to 0. */
  function MinutesIn(m: map<string, LegacyRow>, q: string): real {
    if q in m then m[q].totalMinutes else 0.0
  }

  function CallsIn(m: map<string, LegacyRow>, q: string): int {
    if q in m then m[q].calls else 0
  }

  function AllQueriesIn(m: map<string, LegacyRow>, q: string): real {
    if q in m then m[q].allQueriesTotalMinutes else 0.0
  }

  /** One entry of lines 453-460. */
  function Entry(q: string, cur: map<string, LegacyRow>, hist: map<string, LegacyRow>): (s: LegacyStat)
    requires CallsIn(cur, q) + CallsIn(hist, q) > 0
    ensures s.query == q
    ensures s.averageTime * (s.calls as real) == s.totalMinutes * 60000.0
    ensures s.totalPercent.None? <==> AllQueriesIn(cur, q) + AllQueriesIn(hist, q) == 0.0
    ensures s.totalPercent.Some? ==>
      s.totalPercent.value * (AllQueriesIn(cur, q) + AllQueriesIn(hist, q)) == s.totalMinutes * 100.0
  {
    var tm := MinutesIn(cur, q) + MinutesIn(hist, q);
    var calls := CallsIn(cur, q) + CallsIn(hist, q);
    var denominator := AllQueriesIn(cur, q) + AllQueriesIn(hist, q);
    LegacyStat(q, tm, calls, tm * 1000.0 * 60.0 / (calls as real),
               if denominator == 0.0 then None else Some(tm * 100.0 / denominator))
  }

  function LegacyMinutes(r: Option<LegacyRow>): real {
    if r.Some? then r.value.totalMinutes else 0.0
  }

  function LegacyCalls(r: Option<LegacyRow>): int {
    if r.Some? then r.value.calls else 0
  }

  function LegacyAllQueries(r: Option<LegacyRow>): real {
    if r.Some? then r.value.allQueriesTotalMinutes else 0.0
  }

  lemma IndexedCallsPositive(rows: seq<LegacyRow>, q: string)
    requires ValidLegacy(rows) && q in IndexBy(rows, QueryOf)
    ensures CallsIn(IndexBy(rows, QueryOf), q) > 0
  {
    IndexByIsLast(rows, q);
  }

  /** The merged keys of lines 452-453: the texts of the live rows, then those of
      the historical rows, each once. */
  function MergedKeys(l: seq<LegacyRow>, h: seq<LegacyRow>): seq<string> {
    Uniq(Keys(l, QueryOf) + Keys(h, QueryOf))
  }

  function Entries(keys: seq<string>, cur: map<string, LegacyRow>, past: map<string, LegacyRow>)
    : (r: seq<LegacyStat>)
    requires forall i :: 0 <= i < |keys| ==> CallsIn(cur, keys[i]) + CallsIn(past, keys[i]) > 0
    ensures |r| == |keys|
    ensures forall i :: 0 <= i < |keys| ==> r[i] == Entry(keys[i], cur, past)
  {
    seq(|keys|, i requires 0 <= i < |keys| => Entry(keys[i], cur, past))
  }

  /** What the merge of lines 446-461 promises of its entries `r`, given the
      selected live rows `l` and historical rows `h`: texts are distinct, every
      text of either source has an entry, every entry's text comes from a source,
      and each entry carries the minutes and calls of the last live row and the
      last historical row with its text (nothing from a source that lacks it),
      their average, and their share of the two rows' source totals. */
  predicate MergedFrom(l: seq<LegacyRow>, h: seq<LegacyRow>, r: seq<LegacyStat>) {
    && (forall i, j :: 0 <= i < j < |r| ==> r[i].query != r[j].query)
    && (forall k :: 0 <= k < |l| ==> exists i :: 0 <= i < |r| && r[i].query == l[k].query)
    && (forall k :: 0 <= k < |h| ==> exists i :: 0 <= i < |r| && r[i].query == h[k].query)
    && (forall i :: 0 <= i < |r| ==> Last(l, r[i].query).Some? || Last(h, r[i].query).Some?)
    && (forall i :: 0 <= i < |r| ==>
          && r[i].totalMinutes == LegacyMinutes(Last(l, r[i].query)) + LegacyMinutes(Last(h, r[i].query))
          && r[i].calls == LegacyCalls(Last(l, r[i].query)) + LegacyCalls(Last(h, r[i].query)))
    && (forall i :: 0 <= i < |r| ==> MetricsFrom(l, h, r[i]))
  }

  /** An entry's average time in milliseconds, and its share of the totals
      carried by the last live and historical rows with its text: none when they
      add up to zero. */
  predicate MetricsFrom(l: seq<LegacyRow>, h: seq<LegacyRow>, s: LegacyStat) {
    MetricsOver(s, LegacyAllQueries(Last(l, s.query)) + LegacyAllQueries(Last(h, s.query)))
  }

  /** An entry's average time in milliseconds and its share of `total`. */
  predicate MetricsOver(s: LegacyStat, total: real) {
    && s.averageTime * (s.calls as real) == s.totalMinutes * 60000.0
    && (s.totalPercent.None? <==> total == 0.0)
    && (s.totalPercent.Some? ==> s.totalPercent.value * total == s.totalMinutes * 100.0)
  }

  /** The entries before ranking (lines 446-461). */
  function LegacyMerged(live: seq<LegacyRow>, hist: seq<LegacyRow>, opts: LegacyOptions, now: int)
    : (r: seq<LegacyStat>)
    requires ValidLegacy(SelectLive(live, opts.historical, opts.endAt, now))
    requires ValidLegacy(SelectHistorical(hist, opts.historical))
    ensures MergedFrom(SelectLive(live, opts.historical, opts.endAt, now), SelectHistorical(hist, opts.historical), r)
  {
    var l := SelectLive(live, opts.historical, opts.endAt, now);
    var h := SelectHistorical(hist, opts.historical);
    MergedKeysCallsPositive(l, h);
    var r := Entries(MergedKeys(l, h), IndexBy(l, QueryOf), IndexBy(h, QueryOf));
    LegacyMergedSpec(l, h, r);
    r
  }

  lemma MergedKeysCallsPositive(l: seq<LegacyRow>, h: seq<LegacyRow>)
    requires ValidLegacy(l) && ValidLegacy(h)
    ensures forall i :: 0 <= i < |MergedKeys(l, h)| ==>
      CallsIn(IndexBy(l, QueryOf), MergedKeys(l, h)[i]) + CallsIn(IndexBy(h, QueryOf), MergedKeys(l, h)[i]) > 0
  {
    var keys := MergedKeys(l, h);
    forall i | 0 <= i < |keys|
      ensures CallsIn(IndexBy(l, QueryOf), keys[i]) + CallsIn(IndexBy(h, QueryOf), keys[i]) > 0
    {
      KeyFacts(l, h, keys[i]);
    }
  }

  lemma LegacyMergedSpec(l: seq<LegacyRow>, h: seq<LegacyRow>, r: seq<LegacyStat>)
    requires ValidLegacy(l) && ValidLegacy(h)
    requires forall i :: 0 <= i < |MergedKeys(l, h)| ==>
      CallsIn(IndexBy(l, QueryOf), MergedKeys(l, h)[i]) + CallsIn(IndexBy(h, QueryOf), MergedKeys(l, h)[i]) > 0
    requires r == Entries(MergedKeys(l, h), IndexBy(l, QueryOf), IndexBy(h, QueryOf))
    ensures MergedFrom(l, h, r)
  {
    var keys := MergedKeys(l, h);
    assert forall i :: 0 <= i < |r| ==> r[i].query == keys[i];
    EntriesFromLast(l, h, keys, r);
    EntriesMetrics(l, h, keys, r);
    EntriesCover(l, h, keys, r);
  }

  lemma EntriesMetrics(l: seq<LegacyRow>, h: seq<LegacyRow>, keys: seq<string>, r: seq<LegacyStat>)
    requires ValidLegacy(l) && ValidLegacy(h) && keys == MergedKeys(l, h)
    requires forall i :: 0 <= i < |keys| ==>
      CallsIn(IndexBy(l, QueryOf), keys[i]) + CallsIn(IndexBy(h, QueryOf), keys[i]) > 0
    requires r == Entries(keys, IndexBy(l, QueryOf), IndexBy(h, QueryOf))
    ensures forall i :: 0 <= i < |r| ==> MetricsFrom(l, h, r[i])
  {
    forall i | 0 <= i < |r| ensures MetricsFrom(l, h, r[i]) {
      assert r[i] == Entry(keys[i], IndexBy(l, QueryOf), IndexBy(h, QueryOf));
      EntryMetricsFrom(l, h, keys[i]);
    }
  }

  lemma EntryMetricsFrom(l: seq<LegacyRow>, h: seq<LegacyRow>, q: string)
    requires CallsIn(IndexBy(l, QueryOf), q) + CallsIn(IndexBy(h, QueryOf), q) > 0
    ensures MetricsFrom(l, h, Entry(q, IndexBy(l, QueryOf), IndexBy(h, QueryOf)))
  {
    AllQueriesOfLast(l, q);
    AllQueriesOfLast(h, q);
    EntryMetricsVia(l, h, q, IndexBy(l, QueryOf), IndexBy(h, QueryOf));
  }

  lemma EntryMetricsVia(l: seq<LegacyRow>, h: seq<LegacyRow>, q: string,
                        cur: map<string, LegacyRow>, past: map<string, LegacyRow>)
    requires CallsIn(cur, q) + CallsIn(past, q) > 0
    requires AllQueriesIn(cur, q) == LegacyAllQueries(Last(l, q))
    requires AllQueriesIn(past, q) == LegacyAllQueries(Last(h, q))
    ensures MetricsFrom(l, h, Entry(q, cur, past))
  {
    EntryShare(q, cur, past, LegacyAllQueries(Last(l, q)) + LegacyAllQueries(Last(h, q)));
  }

  lemma AllQueriesOfLast(rows: seq<LegacyRow>, q: string)
    ensures AllQueriesIn(IndexBy(rows, QueryOf), q) == LegacyAllQueries(Last(rows, q))
  {
    IndexByIsLast(rows, q);
  }

  /** An entry's share in terms of any name for its denominator. */
  lemma EntryShare(q: string, cur: map<string, LegacyRow>, past: map<string, LegacyRow>, total: real)
    requires CallsIn(cur, q) + CallsIn(past, q) > 0
    requires total == AllQueriesIn(cur, q) + AllQueriesIn(past, q)
    ensures MetricsOver(Entry(q, cur, past), total)
  {
  }

  lemma EntriesFromLast(l: seq<LegacyRow>, h: seq<LegacyRow>, keys: seq<string>, r: seq<LegacyStat>)
    requires ValidLegacy(l) && ValidLegacy(h) && keys == MergedKeys(l, h)
    requires forall i :: 0 <= i < |keys| ==>
      CallsIn(IndexBy(l, QueryOf), keys[i]) + CallsIn(IndexBy(h, QueryOf), keys[i]) > 0
    requires r == Entries(keys, IndexBy(l, QueryOf), IndexBy(h, QueryOf))
    ensures forall i :: 0 <= i < |r| ==> Last(l, r[i].query).Some? || Last(h, r[i].query).Some?
    ensures forall i :: 0 <= i < |r| ==>
      && r[i].totalMinutes == LegacyMinutes(Last(l, r[i].query)) + LegacyMinutes(Last(h, r[i].query))
      && r[i].calls == LegacyCalls(Last(l, r[i].query)) + LegacyCalls(Last(h, r[i].query))
  {
    forall i | 0 <= i < |r|
      ensures Last(l, r[i].query).Some? || Last(h, r[i].query).Some?
      ensures r[i].totalMinutes == LegacyMinutes(Last(l, r[i].query)) + LegacyMinutes(Last(h, r[i].query))
      ensures r[i].calls == LegacyCalls(Last(l, r[i].query)) + LegacyCalls(Last(h, r[i].query))
    {
      assert keys[i] in keys;
      KeyFacts(l, h, keys[i]);
      assert r[i] == Entry(keys[i], IndexBy(l, QueryOf), IndexBy(h, QueryOf));
    }
  }

  lemma EntriesCover(l: seq<LegacyRow>, h: seq<LegacyRow>, keys: seq<string>, r: seq<LegacyStat>)
    requires keys == MergedKeys(l, h) && |r| == |keys|
    requires forall i :: 0 <= i < |r| ==> r[i].query == keys[i]
    ensures forall k :: 0 <= k < |l| ==> exists i :: 0 <= i < |r| && r[i].query == l[k].query
    ensures forall k :: 0 <= k < |h| ==> exists i :: 0 <= i < |r| && r[i].query == h[k].query
  {
    KeysCover(l, h);
    forall k | 0 <= k < |l| ensures exists i :: 0 <= i < |r| && r[i].query == l[k].query {
      var i :| 0 <= i < |keys| && keys[i] == l[k].query;
      assert r[i].query == keys[i];
    }
    forall k | 0 <= k < |h| ensures exists i :: 0 <= i < |r| && r[i].query == h[k].query {
      var i :| 0 <= i < |keys| && keys[i] == h[k].query;
      assert r[i].query == keys[i];
    }
  }

  /** A text of either source has a row somewhere, a positive call count, and
      looks up its last rows. */
  lemma KeyFacts(l: seq<LegacyRow>, h: seq<LegacyRow>, q: string)
    requires ValidLegacy(l) && ValidLegacy(h)
    requires q in Keys(l, QueryOf) + Keys(h, QueryOf)
    ensures CallsIn(IndexBy(l, QueryOf), q) + CallsIn(IndexBy(h, QueryOf), q) > 0
    ensures Last(l, q).Some? || Last(h, q).Some?
    ensures MinutesIn(IndexBy(l, QueryOf), q) == LegacyMinutes(Last(l, q))
    ensures MinutesIn(IndexBy(h, QueryOf), q) == LegacyMinutes(Last(h, q))
    ensures CallsIn(IndexBy(l, QueryOf), q) == LegacyCalls(Last(l, q))
    ensures CallsIn(IndexBy(h, QueryOf), q) == LegacyCalls(Last(h, q))
  {
    IndexByIsLast(l, q);
    IndexByIsLast(h, q);
    if q in Keys(l, QueryOf) {
      var j :| 0 <= j < |l| && QueryOf(l[j]) == q;
      IndexedCallsPositive(l, q);
    } else {
      assert q in Keys(h, QueryOf);
      var j :| 0 <= j < |h| && QueryOf(h[j]) == q;
      IndexedCallsPositive(h, q);
    }
  }

  /** Every text of either source is among the merged keys. */
  lemma KeysCover(l: seq<LegacyRow>, h: seq<LegacyRow>)
    ensures forall k :: 0 <= k < |l| ==> l[k].query in MergedKeys(l, h)
    ensures forall k :: 0 <= k < |h| ==> h[k].query in MergedKeys(l, h)
  {
    var all := Keys(l, QueryOf) + Keys(h, QueryOf);
    forall k | 0 <= k < |l| ensures l[k].query in all {
      assert QueryOf(l[k]) in Keys(l, QueryOf);
    }
    forall k | 0 <= k < |h| ensures h[k].query in all {
      assert QueryOf(h[k]) in Keys(h, QueryOf);
    }
  }

  function LegacySortValue(sort: SortKey, s: LegacyStat): real {
    match sort
    case TotalMinutes => s.totalMinutes
    case AverageTime => s.averageTime
    case Calls => s.calls as real
  }

  function LegacySortFn(sort: SortKey): LegacyStat -> real {
    (s: LegacyStat) => LegacySortValue(sort, s)
  }

  /** The older `query_stats`: the first 100 entries (all of them when fewer), in
      non-increasing order of the sort key, each drawn from the merged entries;
      an entry left out was cut, which happens only past 100 entries, and ranks
      no higher than any returned one. */
  function LegacyQueryStats(live: seq<LegacyRow>, hist: seq<LegacyRow>, opts: LegacyOptions, now: int)
    : (r: seq<LegacyStat>)
    requires ValidLegacy(SelectLive(live, opts.historical, opts.endAt, now))
    requires ValidLegacy(SelectHistorical(hist, opts.historical))
    ensures |r| == if |LegacyMerged(live, hist, opts, now)| < 100 then |LegacyMerged(live, hist, opts, now)| else 100
    ensures forall i, j :: 0 <= i < j < |r| ==> LegacySortValue(opts.sort, r[i]) >= LegacySortValue(opts.sort, r[j])
    ensures forall i :: 0 <= i < |r| ==> r[i] in LegacyMerged(live, hist, opts, now)
    ensures forall s :: s in LegacyMerged(live, hist, opts, now) && s !in r ==>
      |LegacyMerged(live, hist, opts, now)| > 100
      && forall i :: 0 <= i < |r| ==> LegacySortValue(opts.sort, r[i]) >= LegacySortValue(opts.sort, s)
  {
    var ms := LegacyMerged(live, hist, opts, now);
    var ranked := SortDesc(ms, LegacySortFn(opts.sort));
    var r := Take(ranked, 100);
    LegacyRanking(ms, ranked, opts.sort, r);
    r
  }

  lemma LegacyRanking(ms: seq<LegacyStat>, ranked: seq<LegacyStat>, sort: SortKey, r: seq<LegacyStat>)
    requires SortedDesc(ranked, LegacySortFn(sort)) && multiset(ranked) == multiset(ms)
    requires r == Take(ranked, 100)
    ensures |r| == if |ms| < 100 then |ms| else 100
    ensures forall i, j :: 0 <= i < j < |r| ==> LegacySortValue(sort, r[i]) >= LegacySortValue(sort, r[j])
    ensures forall i :: 0 <= i < |r| ==> r[i] in ms
    ensures forall s :: s in ms && s !in r ==>
      |ms| > 100 && forall i :: 0 <= i < |r| ==> LegacySortValue(sort, r[i]) >= LegacySortValue(sort, s)
  {
    var key := LegacySortFn(sort);
    assert |ranked| == |ms| by {
      assert |multiset(ranked)| == |multiset(ms)|;
    }
    forall i, j | 0 <= i < j < |r| ensures LegacySortValue(sort, r[i]) >= LegacySortValue(sort, r[j]) {
      assert key(ranked[i]) >= key(ranked[j]);
    }
    forall i | 0 <= i < |r| ensures r[i] in ms {
      assert ranked[i] in multiset(ranked);
    }
    forall s | s in ms && s !in r
      ensures |ms| > 100 && forall i :: 0 <= i < |r| ==> LegacySortValue(sort, r[i]) >= LegacySortValue(sort, s)
    {
      assert s in multiset(ranked);
      var k :| 0 <= k < |ranked| && ranked[k] == s;
      assert k >= |r|;
      forall i | 0 <= i < |r| ensures LegacySortValue(sort, r[i]) >= LegacySortValue(sort, s) {
        assert key(ranked[i]) >= key(ranked[k]);
      }
    }
  }

  function LegacySlowFilter(slowQueryMs: int, slowQueryCalls: int): LegacyStat -> bool {
    (s: LegacyStat) => IsSlow(s.calls, s.averageTime, slowQueryMs, slowQueryCalls)
  }

  /** The older `slow_queries`: the entries of `query_stats`, in order, whose calls
      and truncated average reach the thresholds. */
  function LegacySlowQueries(live: seq<LegacyRow>, hist: seq<LegacyRow>, opts: LegacyOptions, now: int,
                             slowQueryMs: int, slowQueryCalls: int): (r: seq<LegacyStat>)
    requires ValidLegacy(SelectLive(live, opts.historical, opts.endAt, now))
    requires ValidLegacy(SelectHistorical(hist, opts.historical))
    ensures var source := LegacyQueryStats(live, hist, opts, now);
      && IsSubseq(r, source)
      && (forall i :: 0 <= i < |r| ==> IsSlow(r[i].calls, r[i].averageTime, slowQueryMs, slowQueryCalls))
      && (forall i :: 0 <= i < |source| && IsSlow(source[i].calls, source[i].averageTime, slowQueryMs, slowQueryCalls)
            ==> source[i] in r)
  {
    Keep(LegacyQueryStats(live, hist, opts, now), LegacySlowFilter(slowQueryMs, slowQueryCalls))
  }
}
