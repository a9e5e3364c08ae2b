# pghero query statistics, modelled in Dafny

This project models how pghero reconciles PostgreSQL query statistics, together
with the small string and unit helpers around that logic.

- **`query_stats`** (lib/pghero/methods/query_stats.rb) reads rows from the live
  `pg_stat_statements` view and the historical `pghero_query_stats` table. It
  merges them in two passes. The first pass groups by `[query_hash, user]`. The
  second groups by `[normalize_query(query), user]`. Both passes use
  `combine_query_stats`. It then adds `average_time` and `total_percent`, ranks
  the result, keeps the top 100 and applies the `min_average_time` and
  `min_calls` filters.
- **`capture_query_stats`** copies the live statistics of one database, and of
  the databases that share its instance, into `pghero_query_stats`. Before
  inserting, it resets `pg_stat_statements`.
- **`slow_queries`** keeps the entries whose call count and average time reach
  the thresholds.
- **The older generation in lib/pghero.rb** has its own `query_stats` and
  `slow_queries`. They merge by query text through `index_by`.
- **Helpers:**
  - `squish`;
  - `normalize_query` and `explainable?`;
  - `friendly_value`, and the ordered `settings` projection built on it;
  - the unsafe-statement guard of `explain`.

Modules follow the program's structure:

| module | what it holds |
|---|---|
| `Wrappers` | `Option` and `Result` |
| `Text` | `squish`, `strip`, `include?`, `/i` matching, `upcase`, `Integer#to_s`, `String#to_i` |
| `Normalizer` | `normalize_query`, `explainable?` |
| `Grouping` | `group_by`, `index_by`, `uniq`, `find`, sums |
| `Ranking` | sorting, `first(n)`, `reject!`/`select` |
| `QueryStatsMethods` | the merge pipeline and `slow_queries` |
| `Capture` | `capture_query_stats` |
| `Legacy` | the older `query_stats` and `slow_queries` |
| `Settings` | `friendly_value`, `settings` |
| `Explain` | the unsafe-statement guard |

**How the model represents the source:**

- **Inputs.** The SQL reads (`current_query_stats`, `historical_query_stats`,
  the `pg_settings` query) are input sequences. The clock is an integer `now`.
  The database flags `query_stats_enabled?`, `supports_query_hash?`,
  `supports_query_stats_user?` and `explain_safe?` are boolean inputs.
- **Numbers.** Minutes are exact `real`s. A `total_percent` whose denominator is
  zero is `None`; Ruby would produce NaN or Infinity there.
- **Zero calls.** The SQL reads compute `total_time / calls` for every row they
  return (query_stats.rb:184 and 226, pghero.rb:750 and 785). PostgreSQL
  therefore fails the read before a zero-call row reaches Ruby. The model states
  this as the precondition `ValidRows`.
- **Sorting.** `sort_by` is not stable, so a ranking is specified only as
  non-increasing by its key and as a permutation of its input.
- **Capture.** A capture is a pure step function. It returns whether
  `pg_stat_statements_reset()` ran and, for each database of the mapping, the
  `INSERT` issued for it, if any.

## Model

| member | source | states |
|---|---|---|
| Text.Squish | lib/pghero.rb:849-851 | the result has no whitespace at either end, every whitespace character in it is a blank, and no two whitespace characters are adjacent |
| Text.SquishJoinsWords | lib/pghero.rb:849-851 | `squish` returns the whitespace-separated words of its input, in order, joined by single blanks |
| Text.SquishKeepsText | lib/pghero.rb:849-851 | `squish` touches only whitespace: the non-whitespace characters of the result are those of the input, in order |
| Text.SquishFixesSquished | lib/pghero.rb:849-851 | a string that is already squished is left unchanged |
| Text.SquishIdempotent | lib/pghero.rb:849-851 | applying `squish` twice gives the same result as applying it once |
| Text.CollapseSpace | lib/pghero.rb:850 | the result is empty only for empty input, keeps whitespace at each end only if the input has it, and has no two adjacent whitespace characters |
| Text.CollapseSpaceJoinsWords | lib/pghero.rb:850 | on text with no whitespace at either end, the third `gsub` gives its words joined by single blanks: each whitespace run between two words becomes exactly one blank |
| Text.CollapseSpaceKeepsText | lib/pghero.rb:850 | collapsing whitespace keeps every non-whitespace character, in order |
| Text.CollapseSpaceFixes | lib/pghero.rb:850 | a string with only single blanks as whitespace is unchanged by the collapse |
| Text.TrimStart | lib/pghero.rb:850 | the result is a suffix of the input, everything dropped satisfies the predicate, and the result does not start with such a character |
| Text.TrimEnd | lib/pghero.rb:850 | the result is a prefix of the input, everything dropped satisfies the predicate, and the result does not end with such a character |
| Text.Strip | lib/pghero.rb:827 | `strip` gives the input less a run of whitespace and NUL at each end, and the result neither starts nor ends with one |
| Text.StrippedUnique | lib/pghero.rb:827 | only one string meets that description, so the contract of `Strip` determines its result |
| Text.ContainsIffOccurs | lib/pghero/methods/query_stats.rb:283 | the `include?` scan succeeds exactly when the pattern occurs at some position |
| Text.Fold | lib/pghero/methods/query_stats.rb:283 | case folding for `/i` maps each character on its own, keeps the length, and leaves no ASCII upper-case letter |
| Text.FoldIdempotent | lib/pghero/methods/query_stats.rb:283 | folding an already folded string changes nothing |
| Text.ContainsIgnoringCaseIff | lib/pghero/methods/query_stats.rb:283 | `s =~ /p/i` succeeds exactly when, at some position, every character of `p` equals the folded character of `s` there |
| Text.NatToString | lib/pghero.rb:820-824 | a printed natural number is a non-empty run of decimal digits |
| Text.DecimalValueOfNat | lib/pghero.rb:820-824 | reading the printed digits of `n` back gives `n` |
| Text.IntToStringRoundTrip | lib/pghero.rb:820-824 | `"#{n}#{rest}".to_i == n` for any integer `n` and any `rest` that does not continue the number: no digit or underscore, and no `d` after a lone `0`, which `to_i` reads as the `0d` prefix |
| Normalizer.PlaceholderRun | lib/pghero/methods/query_stats.rb:289 | the run matched by `(, ?\?)+` is made of whole repetitions, each `,?` or `, ?`, and so holds only commas, blanks and `?` |
| Normalizer.PlaceholderRunIsMaximal | lib/pghero/methods/query_stats.rb:289 | the match of `\?(, ?\?)+` is greedy: no further `,?` or `, ?` follows the run |
| Normalizer.CollapsePlaceholders | lib/pghero/methods/query_stats.rb:289 | the first `gsub` only deletes: its result is a subsequence of the text, and every character other than a comma, blank or `?` survives, in order |
| Normalizer.CollapseLeavesNoList | lib/pghero/methods/query_stats.rb:289 | after the first `gsub`, no `?` is followed by another placeholder of a list |
| Normalizer.CollapseFixesListFree | lib/pghero/methods/query_stats.rb:289 | text without a placeholder list is unchanged by the first `gsub` |
| Normalizer.CollapseIdempotent | lib/pghero/methods/query_stats.rb:289 | the first `gsub` applied twice equals applying it once |
| Normalizer.CloseAt | lib/pghero/methods/query_stats.rb:289 | the lazy `.+?` scan finds a closing `*/` when one exists, and stops at the nearest one |
| Normalizer.CommentLength | lib/pghero/methods/query_stats.rb:289 | the comment matched at the front is the shortest `/*…*/` with at least one character inside and no newline |
| Normalizer.StripComments | lib/pghero/methods/query_stats.rb:289 | the second `gsub` only deletes: its result is a subsequence of the text |
| Normalizer.StripCommentsFixesCommentFree | lib/pghero/methods/query_stats.rb:289 | text with no comment to match is unchanged by the second `gsub` |
| Normalizer.StripCommentsKeepsLines | lib/pghero/methods/query_stats.rb:289 | removing comments never removes a newline, because `.` does not match one |
| Normalizer.NormalizeQuery | lib/pghero/methods/query_stats.rb:288-290 | the normalised query is squished (no whitespace at the ends, none adjacent), and a `nil` query normalises to the empty string |
| Normalizer.NormalizeQueryNotIdempotent | lib/pghero/methods/query_stats.rb:288-290 | `normalize_query` is not idempotent: `"?, /* c */?"` gives `"?, ?"`, and normalising that gives `"?"` |
| Normalizer.ExplainableSpec | lib/pghero/methods/query_stats.rb:282-284 | `explainable?` holds exactly when `select` occurs ignoring case, none of `?)`, `= ?`, `$1` occurs, and `limit ?` does not occur ignoring case |
| Grouping.Find | lib/pghero/methods/query_stats.rb:268-270 | `find` returns the first element that satisfies the predicate, and `nil` exactly when no element does |
| Grouping.Keys | lib/pghero/methods/query_stats.rb:8-9 | the keys of `group_by` are distinct, cover every element's key, and each belongs to some element |
| Grouping.GroupBySpec | lib/pghero/methods/query_stats.rb:8-9 | there is one group per distinct key, in first-appearance order, and each group holds exactly the elements with its key, in input order |
| Grouping.GroupByShape | lib/pghero/methods/query_stats.rb:8-9 | groups are non-empty, all members of a group share its key, and different groups have different keys |
| Grouping.GroupByConservesSum | lib/pghero/methods/query_stats.rb:8-9 | grouping neither loses nor duplicates any element's real amount |
| Grouping.GroupByConservesSumInt | lib/pghero/methods/query_stats.rb:8-9 | grouping neither loses nor duplicates any element's integer amount |
| Grouping.GroupByEmpty | lib/pghero/methods/query_stats.rb:8-9 | there are no groups exactly when there are no elements |
| Grouping.GroupByDistinctKeys | lib/pghero/methods/query_stats.rb:8-9 | with pairwise distinct keys, every element forms its own singleton group, in order |
| Grouping.IndexBy | lib/pghero.rb:447-448 | `index_by` has an entry for every element's key and for no other key |
| Grouping.IndexByKeepsLast | lib/pghero.rb:447-448 | the element stored under a key is the last one with that key |
| Grouping.Uniq | lib/pghero.rb:453 | `uniq` returns distinct elements, exactly those of the input |
| Grouping.UniqOrder | lib/pghero.rb:453 | `uniq` lists the elements in the order of their first occurrence in the input |
| Ranking.SortDesc | lib/pghero/methods/query_stats.rb:19 | `sort_by { -key }` gives a non-increasing permutation of its input |
| Ranking.Take | lib/pghero/methods/query_stats.rb:19 | `first(n)` gives the first `min(n, length)` elements |
| Ranking.Keep | lib/pghero/methods/query_stats.rb:20-25 | `reject!` keeps an order-preserving subsequence whose members all pass, keeps every passing element, and never grows |
| Ranking.KeepCounts | lib/pghero/methods/query_stats.rb:20-25 | an element that passes is kept as many times as it occurs |
| Ranking.KeepAll | lib/pghero/methods/query_stats.rb:20-25 | when every element passes, nothing is removed |
| Ranking.SubseqKeepsOrder | lib/pghero/methods/query_stats.rb:19-25 | filtering a ranked list leaves it ranked |
| Ranking.SubseqTrans | lib/pghero/methods/query_stats.rb:20-25 | a subsequence of a subsequence is a subsequence, so two filters in a row still keep input order |
| QueryStatsMethods.CombineGroup | lib/pghero/methods/query_stats.rb:264-277 | `query` and `query_hash` come from the first row that has a query, `user` from the first row that has a user, and `explainable_query` from the first row whose one is explainable; each is `nil` exactly when no row has one; `total_minutes`, `calls` and `all_queries_total_minutes` are the sums over the group |
| QueryStatsMethods.Combine | lib/pghero/methods/query_stats.rb:265-279 | there is one combined record per group, in group order |
| QueryStatsMethods.CombineConserves | lib/pghero/methods/query_stats.rb:271-272 | over all groups together, the combined records carry the grand totals of `total_minutes` and `calls` |
| QueryStatsMethods.CombineKeepsTextKey | lib/pghero/methods/query_stats.rb:9 | combining a group whose rows share `[normalize_query(query), user]` yields a record with that key |
| QueryStatsMethods.CombineSingleton | lib/pghero/methods/query_stats.rb:264-277 | combining a one-row group gives back that row |
| QueryStatsMethods.PassConserves | lib/pghero/methods/query_stats.rb:8-9 | one merge pass preserves total minutes and total calls |
| QueryStatsMethods.MergeConserves | lib/pghero/methods/query_stats.rb:8-9 | after both passes, total minutes and total calls equal those of all input rows |
| QueryStatsMethods.MergeKeysDistinct | lib/pghero/methods/query_stats.rb:9 | after both passes, the records have pairwise distinct `[normalize_query(query), user]` |
| QueryStatsMethods.MergeEmpty | lib/pghero/methods/query_stats.rb:8-9 | the merge is empty exactly when there are no input rows |
| QueryStatsMethods.PassOnDistinctKeys | lib/pghero/methods/query_stats.rb:8-9 | a pass over rows with distinct keys returns the rows unchanged |
| QueryStatsMethods.MergeCallsPositive | lib/pghero/methods/query_stats.rb:8-9 | merged records keep positive call counts, so the division on line 14 is defined |
| QueryStatsMethods.WithMetrics | lib/pghero/methods/query_stats.rb:14-15 | `average_time * calls == total_minutes * 60000`; `total_percent * A == total_minutes * 100`, absent exactly when `A` is zero |
| QueryStatsMethods.AddMetrics | lib/pghero/methods/query_stats.rb:13-16 | every record receives its metrics, and the order and count are unchanged |
| QueryStatsMethods.MetricsKeepMinutes | lib/pghero/methods/query_stats.rb:13-16 | adding metrics leaves the minutes of every record as they were |
| QueryStatsMethods.MetricsKeepCalls | lib/pghero/methods/query_stats.rb:13-16 | adding metrics leaves the calls of every record as they were |
| QueryStatsMethods.EntryMetrics | lib/pghero/methods/query_stats.rb:13-16 | every record with metrics has positive calls, `average_time * calls == total_minutes * 60000`, and a `total_percent` absent exactly when the denominator is zero |
| QueryStatsMethods.OwnTotals | lib/pghero/methods/query_stats.rb:12 | when each source's rows carry their own minute total, the denominator taken from the first row of each source is the total of all rows |
| QueryStatsMethods.MergedSpec | lib/pghero/methods/query_stats.rb:5-16 | before ranking: one entry per normalized text and user, entries exactly when rows were read, the minutes and calls of all rows read, and each entry's average and share |
| QueryStatsMethods.TopIsRanked | lib/pghero/methods/query_stats.rb:19 | the cut keeps `min(n, 100)` entries in rank order, drawn from the merged entries, and any copy that was cut ranks no higher than every kept entry |
| QueryStatsMethods.QueryStats | lib/pghero/methods/query_stats.rb:4-27 | at most 100 entries, non-increasing by the sort key, each merged and passing both filters; they are exactly the entries of the top 100 that pass both filters, in rank order; a passing merged entry is missing only if more than 100 were merged, and then it ranks no higher than any returned entry |
| QueryStatsMethods.QueryStatsRanking | lib/pghero/methods/query_stats.rb:18-26 | for any merged list, the filtered result is an order-preserving subsequence of the top 100 that holds every top entry passing both filters, and has the other properties listed for `QueryStats` |
| QueryStatsMethods.MissingWasCut | lib/pghero/methods/query_stats.rb:19-25 | because the filters run after the cut, a passing entry is lost only when it ranked below the first 100 |
| QueryStatsMethods.UnfilteredCount | lib/pghero/methods/query_stats.rb:19 | without filters, `query_stats` returns `min(n, 100)` entries for `n` merged records |
| QueryStatsMethods.PastWindowIgnoresLive | lib/pghero/methods/query_stats.rb:5 | for a historical window ending before `now`, the live rows do not affect the result |
| QueryStatsMethods.LiveOnlyIgnoresHistory | lib/pghero/methods/query_stats.rb:6 | without `historical`, the historical rows do not affect the result |
| QueryStatsMethods.PercentSum | lib/pghero/methods/query_stats.rb:15 | the percentages of a list of rows sum to their minutes times 100 over the denominator |
| QueryStatsMethods.PercentagesSumTo100 | lib/pghero/methods/query_stats.rb:12-16 | when each source reports its own minute total and that total is non-zero, the `total_percent` values of the merged records sum to 100 |
| QueryStatsMethods.TruncateToInt | lib/pghero/methods/query_stats.rb:140 | `Float#to_i` truncates toward zero |
| QueryStatsMethods.TruncatedThreshold | lib/pghero/methods/query_stats.rb:140 | for a non-negative average, the truncated average reaches an integer threshold exactly when the average does |
| QueryStatsMethods.DefaultSlowness | lib/pghero.rb:24-25 | with the default thresholds, an entry is slow exactly when it has at least 100 calls and an average of at least 20 ms |
| QueryStatsMethods.SlowQueries | lib/pghero/methods/query_stats.rb:138-141 | `slow_queries` keeps, in order, exactly those entries of the given list (or of `query_stats`) that reach both thresholds |
| Capture.Members | lib/pghero/methods/query_stats.rb:96-99 | the mapping starts with this database, then holds every registered database whose setting names this one, and nothing else |
| Capture.MembersDistinct | lib/pghero/methods/query_stats.rb:96-99 | the mapping never lists a database twice |
| Capture.MemberStats | lib/pghero/methods/query_stats.rb:105 | the statements captured for a database are all its merged statements: the count is the merged count, it is empty only without rows, and minutes are conserved |
| Capture.MemberStatsAsWritten | lib/pghero/methods/query_stats.rb:105 | going through `query_stats`, a database contributes `min(merged, 100)` statements |
| Capture.Columns | lib/pghero/methods/query_stats.rb:128-130 | the columns are `database query total_time calls captured_at`, then `query_hash` and `user` exactly when supported |
| Capture.StatValues | lib/pghero/methods/query_stats.rb:116-124 | each value row has one value per column, matching the column by name |
| Capture.RowsFor | lib/pghero/methods/query_stats.rb:114-126 | there is one value row per captured statement, in order |
| Capture.InsertFor | lib/pghero/methods/query_stats.rb:114-132 | one insert into `pghero_query_stats`, whose rows are aligned with the columns: member id, query, minutes times 60000, calls, the single `now`, then hash and user |
| Capture.InsertKeepsTotalTime | lib/pghero/methods/query_stats.rb:119 | the `total_time` column of an insert sums to the captured minutes times 60000 |
| Capture.CaptureFrom | lib/pghero/methods/query_stats.rb:108-134 | the reset runs exactly when stats are enabled and some member has statements; a member gets an insert exactly when the reset ran and it has statements |
| Capture.CaptureSpec | lib/pghero/methods/query_stats.rb:57-64 | the reset, and hence any insert, happens only when stats are enabled and some member has live rows |
| Capture.Capture | lib/pghero/methods/query_stats.rb:92-136 | a database captured by another does nothing; otherwise the reset and the inserts follow the members' live rows, and each insert holds every merged statement |
| Capture.CaptureAsWritten | lib/pghero/methods/query_stats.rb:92-136 | as written, the same gating holds, but each insert holds `min(merged, 100)` rows |
| Capture.CaptureStoresRows | test/query_stats_test.rb:37-42 | a capture of a database with live statements resets and stores rows |
| Capture.CaptureKeepsEveryStatement | lib/pghero/methods/query_stats.rb:103-132 | the corrected capture stores every merged statement of a member, and its `total_time` adds up to all of the member's minutes |
| Capture.CaptureAsWrittenDropsStatements | lib/pghero/methods/query_stats.rb:105 | as written, for a database that reports per-user statistics, one statement text run by 101 users is reset as 101 statements but only 100 are stored |
| Capture.CaptureStoresAllExampleStatements | lib/pghero/methods/query_stats.rb:105 | for the same input, the corrected capture stores all 101 |
| Legacy.Last | lib/pghero.rb:447-448 | the last row carrying a given text, and `None` exactly when no row carries it |
| Legacy.IndexByIsLast | lib/pghero.rb:447-448 | `index_by { query }` holds a text exactly when a row carries it, and then holds its last such row |
| Legacy.Entry | lib/pghero.rb:454-460 | `average_time * calls == total_minutes * 60000`; `total_percent` is over that text's own two totals, absent when they are zero |
| Legacy.KeysCover | lib/pghero.rb:453 | every text of either source is among the merged keys |
| Legacy.LegacyMerged | lib/pghero.rb:446-462 | texts are distinct and cover both sources; minutes and calls are the last live row's plus the last historical row's, a missing side counting 0; `average_time * calls == total_minutes * 60000`; `total_percent` is over those two rows' totals, absent exactly when they add up to zero; live rows are skipped for a past window |
| Legacy.LegacyQueryStats | lib/pghero.rb:446-465 | `min(n, 100)` entries for `n` merged entries, non-increasing by the sort key, drawn from the merge; an entry is missing only past 100 entries and ranks no higher than any returned one |
| Legacy.LegacyRanking | lib/pghero.rb:463-464 | for any list, sorting and `first(100)` keep `min(n, 100)` entries in rank order, and every entry left out ranks no higher than any kept one |
| Legacy.LegacySlowQueries | lib/pghero.rb:467-469 | keeps, in order, exactly the entries of the older `query_stats` that reach both thresholds |
| Settings.PrintedWithSuffix | lib/pghero.rb:819-825 | a number printed with a suffix reads back through `to_i` as that number |
| Settings.FriendlyValue | lib/pghero.rb:814-829 | a kB or 8kB size is printed in the largest unit among GB, MB and kB that divides it, and the number times the unit is the size; any other unit gives the setting and unit with whitespace stripped |
| Settings.SettingsOf | lib/pghero.rb:713-721 | `settings` has exactly the nine names, in order, each with the friendly value of its row, or `nil` when the server has no such setting |
| Settings.RowFor | lib/pghero.rb:719-720 | the hash built from the rows holds a name exactly when a row has it, and then holds that row |
| Explain.ChopFinalSemicolon | lib/pghero.rb:696 | `sub(/;\z/, "")` removes at most one character, and only a final semicolon |
| Explain.SemicolonBeforeEnd | lib/pghero.rb:696 | after that, a semicolon remains exactly when the statement has one before its last character |
| Explain.Explain | lib/pghero.rb:689-704 | on success, the statement run is `EXPLAIN` and the squished SQL; a refusal is "Unsafe statement"; with the driver guard, nothing is refused |
| Explain.ExplainRefuses | lib/pghero.rb:696-698 | without the driver guard, a statement is refused exactly when a semicolon precedes its last character or its upper-case form contains `COMMIT` |
| Explain.UpcaseAppend | lib/pghero.rb:696 | `upcase` distributes over concatenation |
| Explain.UpcaseKeepsOccurrence | lib/pghero.rb:696 | a word in the statement appears upper-cased in the statement's upper-case form |
| Explain.CommitInAnyCaseRefused | lib/pghero.rb:696-697 | `commit` in any mix of cases, even inside a comment or a string literal, gets the statement refused |
| Explain.DotlessCommitRefused | lib/pghero.rb:696-697 | `commıt`, with a dotless i, is refused as well, because Ruby upper-cases it to `COMMIT` |

## Left out

- **I/O.** SQL execution, quoting, connections, transactions and the `ROLLBACK` around `EXPLAIN` are outside the model. The SQL reads are inputs, and so are the probes `query_stats_enabled?`, `supports_query_hash?`, `supports_query_stats_user?` and `explain_safe?`. `Explain` returns the statement it would run rather than the plan.
- **The SQL bodies.** Only their results are modelled: `current_query_stats`, `historical_query_stats` and the `pg_settings` query.
- **`reset_query_stats`.** It (query_stats.rb:57-64) is the boolean `enabled`. When stats are disabled, `current_query_stats` returns no rows, so the model issues no reset.
- **The older `capture_query_stats`.** It (pghero.rb:503-524) iterates over configured databases with a thread-local `with`, so it is not modelled. It also goes through a `query_stats` that keeps 100 entries, so the truncation under Findings applies to it too.
- **Sorting by `total_percent`.** Only the keys `total_minutes`, `average_time` and `calls` are modelled. With a zero total, the percentages are NaN; `sort_by` compares keys with `<=>`, which returns `nil` for NaN, so Ruby raises `ArgumentError`.
- **Float arithmetic.** Minutes and averages are exact reals. A zero denominator for `total_percent` gives `None` instead of NaN or Infinity.
- **QueryStatsMethods.QueryStats: zero-call rows.** It and the older `query_stats` require every input row to have `calls > 0`. The SQL reads divide by `calls` for each row they return, so such a row never reaches Ruby.
- **`to_f` and `to_i` in the older `query_stats`.** Their conversions of numeric input columns are identities on the modelled types.
- **Legacy.LegacyMerged: order.** It states the merged entries' texts, sums and coverage, but not their order before ranking. The ranking makes that order irrelevant apart from ties.
- **Text.Fold and Text.Upcase: Unicode coverage.** They cover ASCII, the non-ASCII characters whose fold or upper case is a single ASCII letter (U+017F, U+212A, U+0131), and U+1E97. Every other non-ASCII character is left as it is. Some of those upcase to several characters that include an ASCII letter: `ß` to `SS`, the ligatures U+FB00-FB06, U+0149 to `ʼN`, U+01F0, and U+1E96, U+1E98, U+1E99, U+1E9A. None of those expansions can complete `COMMIT`: none starts with `T` or `IT`, none ends with `C`, and none lies inside `COMMIT`. U+1E97 upcases to `T` and a combining diaeresis, which can end a `COMMIT`, so it is modelled. For `/select/i` and `/limit \?/i`, a character whose fold has several characters matches only as a whole, so it cannot match one letter of those words. Ruby 2.4 or later is assumed, since earlier versions upcase ASCII only.
- **QueryStatsMethods.PastWindowIgnoresLive and QueryStatsMethods.LiveOnlyIgnoresHistory.** These follow from the input selection without further proof.
- **Explain: the SQL actually sent.** `select_all` squishes the statement once more. The model returns `EXPLAIN ` followed by the squished SQL; for empty SQL Ruby sends `EXPLAIN` without the trailing blank.
- **Legacy rows with no text.** `LegacyRow.query` is always a string. A `NULL` text would become a `nil` key of `index_by`, which the model does not represent.
- **`query_hash_stats`, the capability probes, `insert_stats` quoting, lib/pghero/methods/settings.rb.** These are plain database reads or driver calls with no logic to model.

## Findings

| source | as written | input that shows it | evidently intended | confidence | as-written member | corrected member |
|---|---|---|---|---|---|---|
| lib/pghero/methods/query_stats.rb:105 | capture reads statistics through `query_stats(limit: 1000000, …)`, which still cuts to its first 100 entries (line 19); `pg_stat_statements` is then reset for all of them | one database that supports per-user statistics, one statement text run by 101 different users: the reset runs for 101 statements, 100 rows are inserted, and one statement's statistics are lost | every merged statement is stored before the reset, as the `limit: 1000000` asks | not executed | Capture.CaptureAsWritten (Capture.CaptureAsWrittenDropsStatements) | Capture.Capture (Capture.CaptureKeepsEveryStatement, Capture.CaptureStoresAllExampleStatements) |
