# Verified models of four small back-office cores

This project holds Dafny models of the pure logic in four small applications, together with proofs about that logic.

- **Candidate search service (`jcmars/backend`).** It finds the officers of Junior Chamber (JC, 青年会議所) chapters.
  - It builds a search-engine query from a year, a region and a position.
  - It extracts `(name, position, year, region)` records from each fetched page, keeping only the first record of each normalised name.
  - It merges the records of up to twenty pages into one entry per name, with the URL and a context snippet of every page that mentioned the name.
  - It scores each entry from the kind of site the evidence came from, how complete the entry is and how many distinct URLs back it. It filters, sorts and ranks the entries.
  - It caches whole answers in a least-recently-used cache with a time-to-live.
- **Management dashboard helpers (`itihai_plus/keiei`).** Gross margin, the text of month and quarter date ranges, pagination figures and the pagination HTML.
- **Trading alert engine (`bit_3`).** It evaluates alert rules against market readings.
  - Comparison operators, plus crossover and crossunder operators that remember the previous value per `symbol_field` key.
  - `AND`/`OR` combination, a per-rule cooldown and severity labels.
- **Auto-poster (`aix`).** It keeps generated tweets within the configured length. It trims the completion, splits threads on newlines, drops blank lines and truncates with `...`.

Modules:
- `Wrappers`: `Option`/`Result`.
- `Text`: Python string primitives: whitespace, `strip`, `lower`, `in`, `join`, slicing and decimal text.
- `Names`: `utils.py`.
- `Models`: the records of `models.py`.
- `Scraper`: `scraper.py`.
- `Ranking`: `ranking.py`.
- `Cache`: `cache.py`.
- `Keiei`: `functions.php`.
- `Alerts`: `alert-engine.ts`.
- `Tweets`: `contentGenerator.js`.

Everything outside the program is a parameter:
- The regex engine and HTML parser are an oracle. A page arrives with its text and, per extraction pattern, the ordered matches in the whitespace-collapsed text.
- The clock is an explicit `now`/`today` argument. The alert engine reads it twice: once in the cooldown check (`now`), and again in each trigger (`triggeredAt`, a reading per symbol taken after that symbol's lookups).
- Market readings are a map from a lookup request `(symbol, field, timeframe, params)` to a value; a missing entry is the lookup's `null`.
- Whether triggering an alert throws is a parameter: the set of symbols whose trigger fails. A trigger throws through the ticker request and alert text of `generateAlertData`, or through the `prisma.alert.create` write. A failing action never propagates, because `executeAction` catches it.
- The language-model completion is an input string.

Python and PHP numbers are exact reals or integers. JavaScript strings are sequences of UTF-16 code units.

Where the code and its written description differ, the model follows the code:
- The 2-to-8-character name check is applied to the raw capture, before normalisation.
- `scrape` returns its entries in first-seen order, because Python dicts keep insertion order.
- The ranked list is a stable sort on `(score, number of sources)`, descending.

Two properties of the code are stated as lemmas rather than corrected:
- The crossover memory key `symbol + "_" + field` is not injective (`Alerts.CrossKeyCollision`).
- A `truncateTweet` limit below 3 still yields a 3-character `...` (`Tweets.Truncate`).

## Model

| member | source | states |
|---|---|---|
| Text.RemoveSpaces | jcmars/backend/utils.py:8 | deleting every whitespace run leaves no whitespace, never lengthens the text, and leaves whitespace-free text unchanged |
| Text.RemoveSpacesAppend | jcmars/backend/utils.py:8 | deleting whitespace distributes over concatenation |
| Text.RemoveSpacesCount | jcmars/backend/utils.py:8 | the whitespace-free text is exactly as long as the number of non-whitespace characters |
| Text.Strip | jcmars/backend/scraper.py:136 | `strip()` returns a contiguous slice of the input, everything cut off is whitespace, and the result neither starts nor ends with whitespace |
| Text.CollapseSpacesProps | jcmars/backend/scraper.py:100 | collapsing whitespace runs to one space: never longer, empty exactly for empty text, the first non-space character kept, only `' '` as whitespace, no two adjacent whitespace characters, and the same text once all whitespace is removed |
| Text.Lower | jcmars/backend/utils.py:29 | lower-casing keeps the length and maps each character on its own (`A`-`Z` shift by 32, others unchanged) |
| Text.LowerIdempotent | jcmars/backend/utils.py:29 | lower-casing twice is lower-casing once |
| Text.Contains | jcmars/backend/utils.py:57-61 | Python `in` on strings holds exactly when the pattern occurs at some index |
| Text.ContainsLower | jcmars/backend/ranking.py:34-36 | a lower-case pattern found in a URL is also found in the lower-cased URL |
| Text.Join | jcmars/backend/scraper.py:62 | joining a single part gives that part |
| Text.JoinSnoc | jcmars/backend/scraper.py:62 | appending a part to a non-empty join appends the separator and the part |
| Text.PySlice | jcmars/backend/scraper.py:127 | Python slicing: an in-range slice is the subsequence, a reversed range is empty, never longer than the text |
| Text.IntToString | jcmars/backend/scraper.py:48 | decimal formatting of an integer: the digits of its magnitude, with a leading `-` when negative |
| Text.ParseNatToString | itihai_plus/keiei/includes/functions.php:54-55 | reading back the decimal digits printed for `n` gives `n` |
| Text.Pad2 | itihai_plus/keiei/includes/functions.php:54-55 | `%02d` of a number below 100 is two digits whose value is that number |
| Names.VariantTableWellFormed | jcmars/backend/utils.py:10-19 | no replacement character in the kanji variant table is itself a key, and none is whitespace |
| Names.ReplaceChar | jcmars/backend/utils.py:22 | `str.replace` of one character keeps the length and replaces exactly the occurrences |
| Names.Fold | jcmars/backend/utils.py:10-22 | a key of the variant table becomes its table value; any other character is unchanged |
| Names.ApplyTableCharIsFold | jcmars/backend/utils.py:21-22 | the replacements applied one after another act on each character like a single table lookup, because no value is a key |
| Names.NormalizeCharwise | jcmars/backend/utils.py:6-24 | the normalised name is the whitespace-free name with each character looked up once in the table |
| Names.NormalizedIsClean | jcmars/backend/utils.py:6-24 | a normalised name holds no whitespace and no archaic variant |
| Names.NormalizeIdempotent | jcmars/backend/utils.py:6-24 | normalising a normalised name changes nothing |
| Names.NormalizePreservesLength | jcmars/backend/utils.py:6-24 | the normalised name has one character per non-whitespace character of the input |
| Names.NormalizeEqualIff | jcmars/backend/utils.py:6-24 | two names normalise alike exactly when their whitespace-free forms agree position by position up to the variant table |
| Names.ReachesTldIff | jcmars/backend/utils.py:34-35 | the regex tail `.*\.(org\|com\|jp)` matches exactly when such a suffix starts at some index with no line break before it |
| Names.JciThenTldIff | jcmars/backend/utils.py:35 | the pattern `jci.*\.(org\|com\|jp)` is found exactly when some occurrence of `jci` is followed, on the same line, by such a suffix |
| Names.OfficialSiteCaseInsensitive | jcmars/backend/utils.py:27-43 | the official-site test ignores letter case, and `jc.or.jp`, `jaycee`, `junior.chamber` or `青年会議所` anywhere in the lower-cased URL is enough |
| Names.OfficialSiteByName | jcmars/backend/utils.py:27-43 | a URL containing one of those markers in lower case is always an official site |
| Names.DetectOrganizationLevel | jcmars/backend/utils.py:55-64 | national exactly when the name contains 日本青年会議所; district, block and local chapter in that precedence for 地区協議会, ブロック and neither |
| Scraper.QueryLayout | jcmars/backend/scraper.py:44-62 | without keywords the query is the year alternation, the quoted region, the quoted position, the council qualifier and `"青年会議所" OR "JC"`, separated by single spaces |
| Scraper.TierText | jcmars/backend/scraper.py:52-55 | the qualifier is `"ブロック協議会"` when the region contains ブロック, else `"地区協議会"` when it contains 地区, else nothing |
| Scraper.QueryKeywordsLast | jcmars/backend/scraper.py:59-62 | truthy keywords are appended verbatim as the last term; missing and empty keywords give the same query |
| Scraper.QueryTierMatchesLevel | jcmars/backend/scraper.py:52-55 | the qualifier agrees with the detected organisation level for block and district regions |
| Scraper.ExtractProperties | jcmars/backend/scraper.py:90-141 | names on a page are pairwise distinct; every record comes from an accepted match (raw name of 2 to 8 characters, year within one of the query's, missing captures defaulted to the query); every accepted name is emitted; the earliest accepted match of a name is the one kept |
| Scraper.ExtractEmptyPage | jcmars/backend/scraper.py:92-98 | empty HTML or empty page text yields no records |
| Scraper.YearDropDoesNotBlock | jcmars/backend/scraper.py:117-125 | a match rejected for its year does not hide a later accepted match of the same name |
| Scraper.DedupFirstProps | jcmars/backend/scraper.py:103-139 | the found-names filter keeps the same set of names, makes them distinct, and invents no record |
| Scraper.ConsiderMatch | jcmars/backend/scraper.py:108-139 | one loop step extends the kept records and the found-names set exactly as the reference meaning does for one more match |
| Scraper.ConsiderMatches | jcmars/backend/scraper.py:106-139 | the loop over one pattern's matches agrees with the reference meaning for all of them |
| Scraper.ExtractCandidates | jcmars/backend/scraper.py:90-141 | the extraction loop computes the reference meaning: the first accepted record of each normalised name over all patterns in order |
| Scraper.UrlsContextsSameLength | jcmars/backend/scraper.py:178-179 | an entry's source list and context list grow together, and are non-empty exactly for names that were found |
| Scraper.UrlsOfAllRecords | jcmars/backend/scraper.py:148-179 | a name's collected sources are the URLs of the processed pages that yielded it, in page order, one per page |
| Scraper.FirstIndex | jcmars/backend/scraper.py:167-176 | the position found holds the name, and no earlier record does |
| Scraper.DedupFirstIsFirst | jcmars/backend/scraper.py:167-176 | every entry kept is the first record of its name |
| Scraper.AggregateSnocNew | jcmars/backend/scraper.py:167-179 | a record with a new name appends a new entry carrying that record's URL and context |
| Scraper.AggregateSnocOld | jcmars/backend/scraper.py:178-179 | a record with a known name only appends its URL and context to that name's entry |
| Scraper.AddRecord | jcmars/backend/scraper.py:165-179 | one aggregation step keeps the entry list equal to the aggregation of the records so far, with a name index that stays correct |
| Scraper.Scrape | jcmars/backend/scraper.py:143-195 | the scrape loop over fetched hits computes the reference aggregation of the first twenty hits |
| Scraper.ScrapeNames | jcmars/backend/scraper.py:143-195 | one entry per distinct name: entries' names are pairwise distinct and are exactly the names extracted from the processed pages |
| Scraper.ScrapeEntry | jcmars/backend/scraper.py:165-193 | each entry has the first record's region, organisation, position and year, score 0 and rank 0, one URL per page that yielded the name in page order, and as many contexts as URLs |
| Scraper.ScrapeIgnoresTail | jcmars/backend/scraper.py:148 | hits after the twentieth never affect the result |
| Ranking.SourceTierIsHighest | jcmars/backend/ranking.py:33-47 | a URL scores the highest tier whose test it passes, in the order national site 1.0, JC site 0.8, government 0.7, Wikipedia 0.5, social 0.4, other 0.3 |
| Ranking.SourceScore | jcmars/backend/ranking.py:27-49 | the source score lies in [0,1], is 0 exactly without sources, bounds every source's tier and equals some source's tier |
| Ranking.SourceScoreMonotone | jcmars/backend/ranking.py:27-49 | more sources never lower the source score |
| Ranking.Completeness | jcmars/backend/ranking.py:51-67 | completeness lies in [0,1]; it is 1 exactly when year (1990-2030), region and position are all present, and 0 exactly when none is |
| Ranking.Corroboration | jcmars/backend/ranking.py:69-82 | corroboration lies in [0,1] and is 0 exactly without sources |
| Ranking.CorroborationMonotone | jcmars/backend/ranking.py:73-82 | corroboration grows with the number of distinct sources through 0.3, 0.6, 0.8 and 1.0 |
| Ranking.CorroborationByDistinctUrls | jcmars/backend/ranking.py:71 | only the set of distinct URLs matters; adding sources never lowers corroboration; the distinct count never exceeds the list length |
| Ranking.Confidence | jcmars/backend/ranking.py:9-25 | the confidence lies in [0,1] |
| Ranking.ConfidenceIsWeightedSum | jcmars/backend/ranking.py:9-25 | the `min(1.0, ...)` cap never applies: the confidence is exactly half the source score plus 30% of completeness plus 20% of corroboration |
| Ranking.ConfidenceMonotone | jcmars/backend/ranking.py:9-82 | adding evidence URLs never lowers the confidence |
| Ranking.ConfidenceWithoutSources | jcmars/backend/ranking.py:9-25 | without sources only completeness counts, at 30% |
| Ranking.ConfidenceNationalSiteExample | jcmars/backend/ranking.py:9-49 | a complete entry backed by the national site and one other distinct URL scores 0.92 |
| Ranking.ConfidenceOrdinarySiteBelowDefault | jcmars/backend/ranking.py:9-82 | a single ordinary site never reaches the default threshold of 0.6 |
| Ranking.SortDescCorrect | jcmars/backend/ranking.py:104-108 | the sort is descending on (score, number of sources), a permutation, and stable: entries with equal keys keep their input order |
| Ranking.KeepAboveProps | jcmars/backend/ranking.py:98-101 | the filter keeps exactly the entries whose score reaches the threshold |
| Ranking.Head | jcmars/backend/ranking.py:115 | the `[:max_results]` slice is a prefix of Python length, dropping from the end for a negative bound |
| Ranking.ScoreAll | jcmars/backend/ranking.py:94-95 | scoring writes each entry's confidence and nothing else |
| Ranking.FilterAbove | jcmars/backend/ranking.py:98-101 | the filter loop computes the threshold filter |
| Ranking.SortStable | jcmars/backend/ranking.py:104-108 | the insertion loop computes the stable descending sort |
| Ranking.RankInOrder | jcmars/backend/ranking.py:111-112 | ranks are assigned 1, 2, ... in list order |
| Ranking.RankCandidates | jcmars/backend/ranking.py:91-115 | the ranking method produces the scored, ranked and returned lists of the reference meaning |
| Ranking.RankProperties | jcmars/backend/ranking.py:91-115 | every input is scored and otherwise unchanged; the result is sorted, every entry reaches the threshold, ranks run 1..k, the length follows `max_results`, and the ranked list is as long as the surviving entries |
| Ranking.RankedHead | jcmars/backend/ranking.py:111-115 | any prefix of a sorted, ranked list of passing entries is sorted, passes and is ranked 1..k |
| Ranking.RankedIsStablePermutation | jcmars/backend/ranking.py:98-112 | the ranked list is a permutation of the passing scored entries, with equal keys in input order |
| Cache.MakeKey | jcmars/backend/cache.py:16-19 | the canonical key holds exactly the names of the query's items |
| Cache.MakeKeyOrderFree | jcmars/backend/cache.py:18 | `sort_keys` makes the key independent of item order |
| Cache.QueryKeyIdentity | jcmars/backend/main.py:87-92 | two searches share a cache key exactly when year, region, position and keywords agree; missing and empty keywords are different keys |
| Cache.NewCache | jcmars/backend/cache.py:11-14 | a new cache is well formed and empty |
| Cache.Clear | jcmars/backend/cache.py:55-57 | clearing empties the cache and keeps its capacity and time-to-live |
| Cache.Get | jcmars/backend/cache.py:21-35 | a fresh entry is returned and moved to the most-recent end; a stale one is deleted and read as a miss; an absent key is a miss that changes nothing |
| Cache.Put | jcmars/backend/cache.py:37-53 | the new entry is the most recent, capacity is respected, and overwriting a key keeps the size |
| Cache.PutKeepsOthers | jcmars/backend/cache.py:41-53 | every old entry under another key survives a write, unless the write overflows and every entry before it is the written key's |
| Cache.PutAddsOnlyNew | jcmars/backend/cache.py:41-53 | a write adds nothing but the new entry: every other entry afterwards was already there under another key |
| Cache.PutEvictsLeastRecent | jcmars/backend/cache.py:41-53 | stated against the old entries: a new key below capacity appends; a new key at capacity drops exactly the oldest entry; an existing key within capacity only moves to the end with its new value; an existing key over capacity also drops the oldest remaining entry |
| Cache.PutThenGet | jcmars/backend/cache.py:21-53 | reading within the time-to-live after a write returns the written value |
| Cache.GetKeepsOtherKeys | jcmars/backend/cache.py:21-35 | a read touches only its own key and never grows the cache |
| Cache.ExpiryIsLazy | jcmars/backend/cache.py:27-33 | stale entries still count towards the size until read, and a read removes at most one entry |
| Alerts.ThresholdNumber | bit_3/bybit-trading-app/src/lib/alerts/alert-engine.ts:150-163 | the number a `number \| number[]` threshold compares as: a number is itself, an empty list 0, a one-element list its element, and a longer list NaN (no number) |
| Alerts.CheckCrossover | bit_3/bybit-trading-app/src/lib/alerts/alert-engine.ts:270-290 | the current value is always stored under `symbol_field`, the first observation never reports a crossing, and a NaN threshold never crosses |
| Alerts.CrossoverSemantics | bit_3/bybit-trading-app/src/lib/alerts/alert-engine.ts:283-289 | a crossover fires exactly when the previous value is at or below the threshold and the current value above it, a crossunder symmetrically, and never both |
| Alerts.CrossoverNeedsMovement | bit_3/bybit-trading-app/src/lib/alerts/alert-engine.ts:277-289 | seeing the same value twice in a row never reports a crossing |
| Alerts.CrossKeyInjective | bit_3/bybit-trading-app/src/lib/alerts/alert-engine.ts:277 | when neither symbol contains an underscore (fields may), distinct pairs get distinct memory keys |
| Alerts.CrossKeyCollision | bit_3/bybit-trading-app/src/lib/alerts/alert-engine.ts:277 | symbol `A_B` with field `C` and symbol `A` with field `B_C` share one memory slot |
| Alerts.EvaluateCondition | bit_3/bybit-trading-app/src/lib/alerts/alert-engine.ts:139-164 | the reading is requested with the condition's symbol, field, timeframe and params; a missing reading is false and writes nothing; only crossing operators write memory; a NaN threshold is false; no condition touches alert times |
| Alerts.ConditionMeaning | bit_3/bybit-trading-app/src/lib/alerts/alert-engine.ts:153-163 | what each comparison operator means: strict and non-strict bounds, equality within 0.0001, `between` with 0 as the missing upper bound, and false for an unknown operator |
| Alerts.ConditionReadsOwnLookup | bit_3/bybit-trading-app/src/lib/alerts/alert-engine.ts:143 | a condition depends only on the reading for its own `(symbol, field, timeframe, params)` request |
| Alerts.CrossSlotIgnoresTimeframe | bit_3/bybit-trading-app/src/lib/alerts/alert-engine.ts:277-289 | two crossing conditions on one field share the `symbol_field` slot whatever their timeframes and params: the second compares against the first one's reading |
| Alerts.EvaluateAll | bit_3/bybit-trading-app/src/lib/alerts/alert-engine.ts:130-132 | every condition yields exactly one result, and alert times stay unchanged |
| Alerts.EvaluateAllAt | bit_3/bybit-trading-app/src/lib/alerts/alert-engine.ts:130-132 | the i-th result is the i-th condition evaluated against the memory left by the ones before it |
| Alerts.EvaluateAllWrites | bit_3/bybit-trading-app/src/lib/alerts/alert-engine.ts:277-281 | conditions write memory only under their own crossing keys |
| Alerts.ComparisonsAreStateless | bit_3/bybit-trading-app/src/lib/alerts/alert-engine.ts:153-163 | a rule without crossing operators leaves memory untouched, and its outcome does not depend on memory |
| Alerts.PeriodsReadSeparately | bit_3/bybit-trading-app/src/lib/alerts/alert-engine.ts:200-205 | RSI conditions that differ only in their period read separate values, so `rsi(7) > 70 AND rsi(14) < 30` can hold |
| Alerts.Combine | bit_3/bybit-trading-app/src/lib/alerts/alert-engine.ts:134-136 | `AND` holds exactly when every result holds; any other logic holds exactly when some result holds |
| Alerts.EvaluateConditions | bit_3/bybit-trading-app/src/lib/alerts/alert-engine.ts:125-137 | with no conditions `AND` is true and `OR` false, and memory is unchanged |
| Alerts.RecordAlert | bit_3/bybit-trading-app/src/lib/alerts/alert-engine.ts:302-304 | triggering records the rule's alert time and leaves the crossover memory alone |
| Alerts.CooldownRestarts | bit_3/bybit-trading-app/src/lib/alerts/alert-engine.ts:292-304 | after an alert the rule passes its cooldown exactly when `cooldown` seconds have elapsed, a positive cooldown blocks the same instant, and other rules are unaffected |
| Alerts.RuleSymbols | bit_3/bybit-trading-app/src/lib/alerts/alert-engine.ts:107 | a rule always watches at least one symbol: its own, or the three defaults |
| Alerts.EvaluateSymbols | bit_3/bybit-trading-app/src/lib/alerts/alert-engine.ts:101-123 | only watched symbols fire; the rule's alert time changes exactly when something fired, to the clock reading taken by the last fired symbol's trigger; the pass is cut short exactly when the last fired symbol's trigger throws, and no earlier fired symbol's did |
| Alerts.EvaluateSymbolsFires | bit_3/bybit-trading-app/src/lib/alerts/alert-engine.ts:109-119 | until the pass is cut short, a symbol fires exactly when its conditions hold against the memory left by the symbols before it; afterwards nothing changes |
| Alerts.StoppedPassIgnoresRest | bit_3/bybit-trading-app/src/lib/alerts/alert-engine.ts:101-123 | once a throwing trigger reaches the rule's `catch`, later symbols are never evaluated: appending symbols changes nothing |
| Alerts.EvaluateRule | bit_3/bybit-trading-app/src/lib/alerts/alert-engine.ts:100-123 | a rule still cooling down at the check's instant does nothing and is not cut short; otherwise only its symbols fire, and the recorded alert time is the last fired symbol's trigger-time clock reading |
| Alerts.LateTriggerDelaysCooldown | bit_3/bybit-trading-app/src/lib/alerts/alert-engine.ts:292-304 | recording the alert at a clock reading later than the cooldown check only delays the next alert, and a poll exactly one cooldown after the check is blocked by any such delay |
| Alerts.Severity | bit_3/bybit-trading-app/src/lib/alerts/alert-engine.ts:347-355 | the label is one of info, warning, error and critical |
| Alerts.SeverityTable | bit_3/bybit-trading-app/src/lib/alerts/alert-engine.ts:347-355 | low, medium, high and critical map to info, warning, error and critical; anything else is reported like low; only critical is critical |
| Keiei.GrossMargin | itihai_plus/keiei/includes/functions.php:27-30 | the margin times sales is the profit times 100, and no sales gives 0 |
| Keiei.GrossMarginLandmarks | itihai_plus/keiei/includes/functions.php:27-30 | zero cost is 100%, cost equal to sales is 0%, and for positive sales a lower cost never lowers the margin |
| Keiei.DaysInMonth | itihai_plus/keiei/includes/functions.php:55 | a month has 28 to 31 days, and February has 29 exactly in Gregorian leap years |
| Keiei.YearFormatsAgree | itihai_plus/keiei/includes/functions.php:37-55 | PHP's `Y` and `%d` print a year of four or more digits the same way |
| Keiei.MonthRange | itihai_plus/keiei/includes/functions.php:32-41 | both ends of a month range are dates of equal length, at least `YYYY-mm-dd` long |
| Keiei.MonthRangeEnds | itihai_plus/keiei/includes/functions.php:37-38 | the start is the requested year and month at day `01`, the end the same year and month at the month's last day, `29` for February exactly in leap years |
| Keiei.MonthRangeDefaultIsCurrent | itihai_plus/keiei/includes/functions.php:33-35 | without a month the range is that of the current year and month |
| Keiei.QuarterRange | itihai_plus/keiei/includes/functions.php:43-58 | a quarter outside 1..4 is an error (the calendar rejects its end month); any other quarter gives a range |
| Keiei.DefaultQuarterContainsMonth | itihai_plus/keiei/includes/functions.php:47-49 | the default quarter `ceil(month / 3)` is in 1..4 and contains the current month |
| Keiei.QuartersPartitionYear | itihai_plus/keiei/includes/functions.php:51-52 | each month lies in exactly one quarter's span |
| Keiei.QuarterEndDay | itihai_plus/keiei/includes/functions.php:55 | quarters end on the 31st, 30th, 30th and 31st whatever the year |
| Keiei.QuarterRangeText | itihai_plus/keiei/includes/functions.php:51-57 | the range runs from day 01 of month `3q-2` to the last day of month `3q`, both zero-padded |
| Keiei.GetPaginationInfo | itihai_plus/keiei/includes/functions.php:164-177 | zero items per page is a division-by-zero error, and only that |
| Keiei.PaginationMeaning | itihai_plus/keiei/includes/functions.php:165-175 | the page count is the least that holds every item, the offset skips the earlier pages, and the previous/next flags say whether such a page exists |
| Keiei.PaginationLinks | itihai_plus/keiei/includes/functions.php:195-198 | the numbered links are pages 1..total in order, and exactly one is active when the current page is among them |
| Keiei.NumberedItems | itihai_plus/keiei/includes/functions.php:195-198 | the numbered-link loop emits one item per page, in order |
| Keiei.RenderPagination | itihai_plus/keiei/includes/functions.php:179-211 | the rendered HTML is empty exactly when there is at most one page, and otherwise is the nav wrapper around the previous item, the numbered items and the next item |
| Tweets.EffectiveMaxLength | aix/x-auto-poster/src/contentGenerator.js:11 | a missing or zero configured limit means 280; any other value is used as is |
| Tweets.Trim | aix/x-auto-poster/src/contentGenerator.js:57 | the result is a slice of the input whose cut-off margins are JavaScript whitespace, does not start or end with whitespace, and is empty exactly for blank text |
| Tweets.TrimUnique | aix/x-auto-poster/src/contentGenerator.js:57 | any slice with blank margins whose ends are not whitespace is the trimmed text, so trimming is determined by that description |
| Tweets.TrimIdempotent | aix/x-auto-poster/src/contentGenerator.js:57 | trimming twice is trimming once |
| Tweets.SplitLines | aix/x-auto-poster/src/contentGenerator.js:89 | `split('\n')` gives at least one piece and no piece holds a newline |
| Tweets.SplitJoin | aix/x-auto-poster/src/contentGenerator.js:89 | joining the pieces of `split('\n')` with newlines gives the text back |
| Tweets.Truncate | aix/x-auto-poster/src/contentGenerator.js:99-102 | text within the limit is kept; longer text becomes its first `limit - 3` code units plus `...`, exactly `limit` long, or 3 long when the limit is below 3 |
| Tweets.TruncateBounds | aix/x-auto-poster/src/contentGenerator.js:99-102 | a limit of at least 3 is never exceeded; truncating twice is truncating once; the kept part is a prefix of the text |
| Tweets.GenerateTweet | aix/x-auto-poster/src/contentGenerator.js:57-64 | truncating only when the trimmed tweet is too long equals always truncating it |
| Tweets.GenerateVariation | aix/x-auto-poster/src/contentGenerator.js:118 | a variation never exceeds a limit of at least 3 |
| Tweets.NonBlankSound | aix/x-auto-poster/src/contentGenerator.js:89 | the kept lines come from the text and none is blank |
| Tweets.GenerateThread | aix/x-auto-poster/src/contentGenerator.js:88-92 | the thread is the trimmed completion split into lines, blank lines dropped, each line truncated |
| Tweets.ThreadTweetsFit | aix/x-auto-poster/src/contentGenerator.js:88-92 | one tweet per non-blank line, and each tweet respects a limit of at least 3, is not blank and holds no newline |

## Left out

- Network and file I/O are outside the model: the search engine, page fetching, `asyncio.sleep`, logging, the OpenAI client, the database and the alert actions. Their results are inputs, or they are dropped.
- The extraction regexes and BeautifulSoup are an oracle. Only their contract is used: ordered matches with optional captures and spans in the collapsed text.
- `extract_domain` and the `SourceInfo` fields other than the URL are not modelled. They never influence the records.
- The ranker writes `confidence_score` and `rank` into the caller's candidate objects through aliasing. The model returns new values instead.
- Floating-point rounding is not modelled; weights and scores are exact reals. For example, `0.5 + 0.3 + 0.12` is exactly `0.92` here.
- `hashlib.md5` of the JSON text is taken to be injective. The key is the canonical map itself.
- JSON encoding details (`ensure_ascii`, escaping) are not modelled.
- PHP's `strtotime` parsing of the month text is not modelled. `getMonthRange` receives a year and a month number, and years are at least 1.
- Keiei.QuarterRange: requires a year of at least 1. The source prints a negative year with `%d` and the calendar rejects year 0; years before 1 are not modelled.
- PHP values other than integers and reals (strings, `null` page counts) are not modelled.
- The other helpers of `functions.php` (escaping, redirects, formatting, validation, names, select options, flash messages, sanitising) are not modelled.
- Alerts.EvaluateSymbols: each trigger's clock reading is a function of the symbol. A symbol listed twice would get one reading, but a rule's own symbol list never repeats one. The model does not assume the wall clock never runs backwards: `triggeredAt(s)` may be any instant, and Alerts.LateTriggerDelaysCooldown states its consequence only for readings at or after the check.
- `Promise.all` in `evaluateConditions` is modelled as evaluation in list order. The conditions share the crossover memory, and the source leaves their interleaving to the runtime.
- The alert engine's start/stop timer, rule loading, field lookup (`getFieldValue`, indicators, balances), alert text generation and action execution are not modelled. Readings are a parameter.
- Alerts.EvaluateCondition: the readings are keyed on the timeframe and params exactly as the condition gives them. The lookup's own defaults (a missing timeframe is `5m`, a missing period is 14 for RSI and 20 for SMA and EMA) are not modelled, so a condition that omits them and one that spells them out read independent values. NaN readings are not modelled.
- In the content generator, non-integer limits and non-numeric `maxTweetLength` values are not modelled.
- The prompts and topic choice of the content generator are not modelled. They only feed the language model.
- Text.Lower: lower-cases ASCII letters only. Python's `str.lower` folds other characters too, some of them into ASCII (U+212A KELVIN SIGN becomes `k`, U+0130 becomes `i` plus U+0307 and lengthens the text). Non-ASCII case folding, including folds into ASCII, is not modelled, so a URL spelled with such characters can match a marker in the source but not in the model.
- Ranking.Confidence: states only the [0,1] bound. Ranking.ConfidenceIsWeightedSum gives its value for every candidate in terms of the three part scores, and Ranking.ConfidenceMonotone says more evidence never lowers it. Ranking.ConfidenceWithoutSources, Ranking.ConfidenceNationalSiteExample and Ranking.ConfidenceOrdinarySiteBelowDefault only cover particular cases: no evidence, one configuration, and an upper bound.
- Alerts.Severity: states only the range of labels. The mapping itself is Alerts.SeverityTable.
- Keiei.MonthRange: states only the shape of the two dates. Their text for a given month is Keiei.MonthRangeEnds, and the default month is Keiei.MonthRangeDefaultIsCurrent.
