# Conflict and macroeconomic ingestion pipelines, modelled in Dafny

The repository fetches two kinds of data from public HTTP APIs and turns them into tables:

- **UCDP conflict events** (`src/containers/ucdp-container/ucdp_scraper.py`).
  - `scrape_country` follows the paginated UCDP GED API for one Gleditsch–Ward country code. It extends a caller-owned event list in place.
  - `main` runs it for five country codes into one shared list.
  - `cast_and_aggregate` parses `date_start` and coerces the four casualty columns to integers. It then groups the events by (country_id, country, year), computes ten `ged_*` statistics per group and sorts the result by (country_id, year).
- **World Bank indicators**, in two scripts.
  - The container scraper (`src/containers/worldbank-container/worldbank_scraper.py`):
    - parses each indicator response into a table of (country, iso3, year, value) rows, skipping null values;
    - outer-merges a country's indicator tables on (country, iso3, year) and sorts them by year;
    - drops countries without data;
    - concatenates the rest and sorts by year;
    - names the output blob after the year range.
  - The stand-alone ingest script (`src/ingest_worldbank.py`) does the same per country, with different error behaviour: every failure aborts the run.

The model has seven modules, one file each:

| file | module | what it holds |
|---|---|---|
| `wrappers.dfy` | `Wrappers` | `Option` and `Result` with `:-` support |
| `numerals.dfy` | `Numerals` | Python's `int(text)`, the numeric reading of `pd.to_numeric`, truncation toward zero, and `str(int)` |
| `ucdp_events.dfy` | `UcdpEvents` | raw events as the API delivers them, and the casting step |
| `ucdp_aggregate.dfy` | `UcdpAggregate` | the group-by, the ten statistics and the output order |
| `ucdp_scraper.dfy` | `UcdpScraper` | the pagination loop as a function `Scrape`, and the class `EventLog` |
| `wb_tables.dfy` | `WbTables` | the row filter, the outer merge, the sort by year and the concatenation, shared by both World Bank scripts |
| `worldbank_scraper.dfy`, `ingest_worldbank.dfy` | `WorldBankScraper`, `IngestWorldBank` | the two World Bank scripts |

In `UcdpScraper`, `EventLog` owns the shared `all_events` list. Its methods `ScrapeCountry` and `ScrapeAll` are the loops of `scrape_country` and `main`, proved against `Scrape` and `ScrapeCodes`. A `Cursor` policy decides how the request after a page is built. `IgnoreCursor` is the code as written. `FollowCursor` is the corrected behaviour (see "Findings"). `main`'s model takes the policy as a parameter, so both the code as written and the corrected code are instances of it.

Some of the source's dependencies become parameters, because they are outside the model:

- the HTTP calls: `fetch`, `Request`, `Get`;
- pandas' date parser: `toDate`;
- the country-name converter: `convert`.

Each loop of the source is an imperative method whose contract ties it to a tail-recursive specification function:

- `EventLog.ScrapeCountry`, `EventLog.ScrapeAll`;
- `WorldBankScraper.MergeIndicators`, `WorldBankScraper.FetchCountryData`;
- `IngestWorldBank.FetchIndicator`.

The properties of the scripts are proved about those functions.

Some of the code's behaviour is easy to misread, and the model follows it as written:

- **No retry.** `scrape_country` retries nothing: `raise_for_status()` ends the run at the first 4xx or 5xx status (`UcdpScraper.ErrorEndsRunAtRequest`, `UcdpScraper.FailureEndsRun`), and every earlier request of the run got a page whose cursor led to the next one (`UcdpScraper.RunFollowsChain`).
- **`ged_events` counts identifiers, not events.** `("id", "count")` counts non-null identifiers, so it can be smaller than `ged_events_fatal` (`UcdpAggregate.FatalCanExceedEventsWithoutIds`).
- **Counts are not clamped.** Coerced casualty counts are not clamped at zero: a negative count stays negative.
- **The raw table is the cast table.** `cast_and_aggregate` writes the parsed `date_start` and the coerced counts back into `main`'s frame, so the raw table `main` uploads is the cast one (`UcdpScraper.Pipeline`).
- **The pagination loop does not follow the cursor.** See "Findings" below.

## Model

| member | source | states |
|---|---|---|
| Numerals.ParseInt | src/containers/worldbank-container/worldbank_scraper.py:93 | `int(text)` succeeds exactly on an optional sign followed by at least one digit; a `-` sign gives a non-positive value, otherwise the value is non-negative |
| Numerals.NatToString | src/containers/worldbank-container/worldbank_scraper.py:162 | `str(n)` is a non-empty digit string with value `n` and no leading zero |
| Numerals.ParseIntToString | src/containers/worldbank-container/worldbank_scraper.py:162 | `int(str(i)) == i` for every integer; the numeral holds neither `_` nor `.` |
| Numerals.ParseDecimal | src/containers/ucdp-container/ucdp_scraper.py:68 | the numeric reading of a text cell succeeds exactly on an optional sign followed by digits with at most one point and at least one digit; it agrees with `int(text)` on every integer numeral |
| Numerals.ParseDecimalValue | src/containers/ucdp-container/ucdp_scraper.py:68 | the numeral `sign w.f` reads as the digits of `w` and `f` together with `|f|` digits after the point, negated under `-` |
| Numerals.ParseDecimalWholeValue | src/containers/ucdp-container/ucdp_scraper.py:68 | the numeral `sign w` without a point reads as the value of `w`, negated under `-` |
| Numerals.TruncateDropsFraction | src/containers/ucdp-container/ucdp_scraper.py:68 | `.astype(int)` on the number `sign w.f` gives `sign w`: the fraction is cut toward zero for either sign |
| Numerals.TruncateTowardZero | src/containers/ucdp-container/ucdp_scraper.py:68 | `.astype(int)` cuts a decimal toward zero: the result has the sign of the number and lies within one unit of it on the zero side |
| UcdpEvents.Coerce | src/containers/ucdp-container/ucdp_scraper.py:67-68 | a missing or unparsable cell becomes 0; an integer text or number keeps its value; a number, or a text that reads as one, becomes the unique integer within one unit of it toward zero |
| UcdpEvents.ParseDateCell | src/containers/ucdp-container/ucdp_scraper.py:66 | a missing date stays missing; a text is read by the date parser, null when it cannot be read; an already parsed date is kept |
| UcdpEvents.Cast | src/containers/ucdp-container/ucdp_scraper.py:66-68 | one row per event in order; identifying columns untouched; `date_start` is the parsed cell; each casualty column is the coercion of the event's cell |
| UcdpEvents.CastIdempotent | src/containers/ucdp-container/ucdp_scraper.py:66-68 | casting an already cast table returns it unchanged |
| UcdpEvents.CoerceNumeralText | src/containers/ucdp-container/ucdp_scraper.py:68 | an integer written as JSON text is read back as that integer |
| UcdpEvents.CoerceDecimalText | src/containers/ucdp-container/ucdp_scraper.py:68 | a fractional numeral written as JSON text keeps its integer part with its sign: `"12.75"` is 12 and `"-0.5"` is 0 |
| UcdpAggregate.CountWhere | src/containers/ucdp-container/ucdp_scraper.py:74-75 | a count of rows is between 0 and the number of rows |
| UcdpAggregate.Group | src/containers/ucdp-container/ucdp_scraper.py:72 | a group holds exactly the rows with its key (missing key parts included), each as often as the input holds it |
| UcdpAggregate.GroupIsOrderedFilter | src/containers/ucdp-container/ucdp_scraper.py:72 | a group keeps a single row exactly when it has the key and distributes over concatenation, so its rows keep their input order |
| UcdpAggregate.GroupCount | src/containers/ucdp-container/ucdp_scraper.py:72-83 | a count over a group equals the same count over the whole input restricted to the group's key |
| UcdpAggregate.GroupSum | src/containers/ucdp-container/ucdp_scraper.py:72-83 | a sum over a group equals the same sum over the whole input with the other keys counted as zero |
| UcdpAggregate.Insert | src/containers/ucdp-container/ucdp_scraper.py:86 | inserting a new key into strictly ordered keys keeps them strictly ordered and adds exactly that key |
| UcdpAggregate.SortedKeys | src/containers/ucdp-container/ucdp_scraper.py:72-86 | the output keys are exactly the group-by keys present in the rows, strictly ordered |
| UcdpAggregate.Aggregate | src/containers/ucdp-container/ucdp_scraper.py:71-87 | one output row per key present in the input and no other; rows strictly ordered by key; each row is the ten statistics of its group |
| UcdpAggregate.Summaries | src/containers/ucdp-container/ucdp_scraper.py:73-84 | one summary per key, in key order, each computed from that key's group |
| UcdpAggregate.KeyBeforeIrreflexive | src/containers/ucdp-container/ucdp_scraper.py:86 | the output order never places a key before itself |
| UcdpAggregate.KeyBeforeTransitive | src/containers/ucdp-container/ucdp_scraper.py:86 | the output order is transitive |
| UcdpAggregate.KeyBeforeTotal | src/containers/ucdp-container/ucdp_scraper.py:86 | any two distinct keys are ordered one way or the other |
| UcdpAggregate.TextBeforeTotal | src/containers/ucdp-container/ucdp_scraper.py:72 | Python's string order relates any two distinct country names |
| UcdpAggregate.AggregateSortedByCountryIdYear | src/containers/ucdp-container/ucdp_scraper.py:86 | output rows are nondecreasing in (country_id, year), missing values last, and no key appears twice |
| UcdpAggregate.DyadsAtMostRows | src/containers/ucdp-container/ucdp_scraper.py:80 | distinct non-null dyads are at most the rows with a dyad, which are at most the group's rows |
| UcdpAggregate.SummaryBounded | src/containers/ucdp-container/ucdp_scraper.py:74-83 | every count of a group is between 0 and its size; the three violence-type counts together do not exceed it |
| UcdpAggregate.AggregateRowFromInput | src/containers/ucdp-container/ucdp_scraper.py:72-83 | each output column of a row is the count, sum or number of distinct dyads over exactly the input rows carrying that row's key |
| UcdpAggregate.GroupStatisticsBounded | src/containers/ucdp-container/ucdp_scraper.py:72-83 | every output row summarises a non-empty group, with the bounds above |
| UcdpAggregate.EventsCoverFatalWhenIdsPresent | src/containers/ucdp-container/ucdp_scraper.py:74-75 | when every event has an id, `ged_events` is the group size and at least `ged_events_fatal` |
| UcdpAggregate.FatalCanExceedEventsWithoutIds | src/containers/ucdp-container/ucdp_scraper.py:74-75 | one fatal event with a null id gives `ged_events == 0` beside `ged_events_fatal == 1` |
| UcdpAggregate.TwoEventsOneCountryYear | src/containers/ucdp-container/ucdp_scraper.py:71-87 | two events of one country-year give a single row with the expected ten statistics |
| UcdpAggregate.AggregateConservesTotals | src/containers/ucdp-container/ucdp_scraper.py:72-79 | summed over the output, events, fatal events and the four death columns equal the same totals over the input: no event dropped or counted twice |
| UcdpScraper.PageEvents | src/containers/ucdp-container/ucdp_scraper.py:45 | a page without a `Result` key contributes no events |
| UcdpScraper.NextCursor | src/containers/ucdp-container/ucdp_scraper.py:48-50 | the loop stops exactly when `NextPageUrl` is missing, null or empty, and otherwise continues with that URL |
| UcdpScraper.Scrape | src/containers/ucdp-container/ucdp_scraper.py:40-52 | at most `fuel` fetches; with fuel the first fetch is the initial request |
| UcdpScraper.ScrapeCodes | src/containers/ucdp-container/ucdp_scraper.py:15-17 | a completed run fetched at least once per country |
| UcdpScraper.ScrapeCodesReadsServedPages | src/containers/ucdp-container/ucdp_scraper.py:15-17 | following the cursor, the loop over countries whose chains are served completes and gathers every page of every country, in country order |
| UcdpScraper.ScrapeReadsServedPages | src/containers/ucdp-container/ucdp_scraper.py:40-52 | over a served chain of pages the loop completes, fetches once per page and appends the pages' events in API order |
| UcdpScraper.CursorFollowingReadsEveryPage | src/containers/ucdp-container/ucdp_scraper.py:48-51 | following `NextPageUrl`, every page of a chain of any length is read exactly once |
| UcdpScraper.AsWrittenRequestsAfterFirst | src/containers/ucdp-container/ucdp_scraper.py:41-51 | as written, every request after the first is the bare `BASE_URL` with no parameters |
| UcdpScraper.AsWrittenRepeatsBarePage | src/containers/ucdp-container/ucdp_scraper.py:40-52 | once the bare `BASE_URL` page has a cursor, the loop re-fetches and re-appends it until the fuel runs out |
| UcdpScraper.AsWrittenCompletesWithinTwoFetches | src/containers/ucdp-container/ucdp_scraper.py:40-52 | as written, a country completes only within two fetches |
| UcdpScraper.AsWrittenNeverCompletes | src/containers/ucdp-container/ucdp_scraper.py:40-52 | a country with a second page never completes when the bare page has a cursor, and the bare page's events are appended over and over |
| UcdpScraper.ErrorEndsRunAtRequest | src/containers/ucdp-container/ucdp_scraper.py:41-43 | a 4xx or 5xx response, or a body that is not an object, ends the run at that request with that failure and no events |
| UcdpScraper.RunFollowsChain | src/containers/ucdp-container/ucdp_scraper.py:40-52 | every request but the last got a successful page with a cursor leading to the next request; a completed run ends on a page without a cursor; a run out of fuel used all of it |
| UcdpScraper.FailureEndsRun | src/containers/ucdp-container/ucdp_scraper.py:41-43 | a failed run ends on the request whose response failed; an HTTP failure carries exactly that response's 4xx/5xx status; a payload failure had a malformed body |
| UcdpScraper.ScrapeCodesDone | src/containers/ucdp-container/ucdp_scraper.py:15-17 | `main` completes if and only if every country's loop completes |
| UcdpScraper.ScrapeCodesEvents | src/containers/ucdp-container/ucdp_scraper.py:13-17 | when `main`'s loop completes, the shared list is each country's own events, country after country |
| UcdpScraper.ScrapeCodesFirstFailure | src/containers/ucdp-container/ucdp_scraper.py:15-17 | when `main`'s loop fails, it fails as some country's loop did, and every earlier country completed |
| UcdpScraper.EventLog.constructor | src/containers/ucdp-container/ucdp_scraper.py:13 | the shared list starts empty |
| UcdpScraper.EventLog.ScrapeCountry | src/containers/ucdp-container/ucdp_scraper.py:29-52 | under either cursor policy, the list keeps its earlier contents as a prefix, followed by the pages' events in API order; returns the run's outcome and number of fetches |
| UcdpScraper.EventLog.ScrapeAll | src/containers/ucdp-container/ucdp_scraper.py:13-17 | the list gains every country's events in code order; the first failure stops the loop |
| UcdpScraper.Pipeline | src/containers/ucdp-container/ucdp_scraper.py:9-23 | under either cursor policy, `main` uploads exactly when every country's loop completes; the raw table is every country's events in order, cast in place, and the aggregate is computed from that raw table; otherwise it fails as the first country that did not complete |
| UcdpScraper.PipelineReadsEveryCountry | src/containers/ucdp-container/ucdp_scraper.py:9-23 | following the cursor, when the API serves every country's chain within the fuel, `main` uploads all their events cast, and the aggregate of exactly those rows |
| UcdpScraper.MainAsWrittenNeverUploads | src/containers/ucdp-container/ucdp_scraper.py:9-23 | as written, `main` uploads nothing once some country has a second page and the unfiltered first page has a cursor |
| UcdpScraper.RunPipeline | src/containers/ucdp-container/ucdp_scraper.py:9-23 | running the class over a fresh list gives the same result as `Pipeline` for the same policy |
| WbTables.NonNull | src/containers/worldbank-container/worldbank_scraper.py:96 | keeps exactly the rows whose value is not null |
| WbTables.NonNullAppend | src/containers/worldbank-container/worldbank_scraper.py:96 | the filter works row by row: filtering two lists together is filtering each |
| WbTables.KeepRows | src/containers/worldbank-container/worldbank_scraper.py:89-97 | the only way the comprehension fails is an unreadable date |
| WbTables.KeepRowsSucceeds | src/containers/worldbank-container/worldbank_scraper.py:89-97 | it succeeds if and only if every non-null row has a readable date (null rows' dates are never read) |
| WbTables.KeepRowsConverts | src/containers/worldbank-container/worldbank_scraper.py:89-97 | on success, one table row per non-null API row, in order, with `int(date)` as year and the value under the indicator's column |
| WbTables.TableOf | src/containers/worldbank-container/worldbank_scraper.py:89 | the frame has the indicator column exactly when it has rows |
| WbTables.KeepRowsWellFormed | src/containers/worldbank-container/worldbank_scraper.py:89-97 | every value of a parsed table sits in the indicator's column |
| WbTables.Matches | src/containers/worldbank-container/worldbank_scraper.py:44 | the right rows matching a key are exactly those with that key |
| WbTables.Unmatched | src/containers/worldbank-container/worldbank_scraper.py:44 | the right rows kept on their own are exactly those whose key the left table lacks |
| WbTables.JoinRow | src/containers/worldbank-container/worldbank_scraper.py:44 | a left row with no match survives alone; otherwise it is combined with each match, under its key |
| WbTables.OuterJoin | src/containers/worldbank-container/worldbank_scraper.py:44 | the merged columns are the left columns followed by the right |
| WbTables.JoinKeys | src/containers/worldbank-container/worldbank_scraper.py:44 | the outer merge has exactly the keys of either side |
| WbTables.JoinWellFormed | src/containers/worldbank-container/worldbank_scraper.py:44 | merging well-formed tables gives a well-formed table |
| WbTables.JoinValuesFromRight | src/containers/worldbank-container/worldbank_scraper.py:44 | a right column's values come only from right rows with the same key |
| WbTables.JoinValuesFromLeft | src/containers/worldbank-container/worldbank_scraper.py:44 | an earlier table's column keeps drawing values only from that table |
| WbTables.JoinKeepsRight | src/containers/worldbank-container/worldbank_scraper.py:44 | every value of the right table survives the merge under its key |
| WbTables.JoinKeepsLeft | src/containers/worldbank-container/worldbank_scraper.py:44 | every value an earlier table contributed survives the merge |
| WbTables.FoldJoin | src/containers/worldbank-container/worldbank_scraper.py:42-44 | the merge's columns are all tables' columns, in order |
| WbTables.FoldJoinMerges | src/containers/worldbank-container/worldbank_scraper.py:42-44 | merging distinct indicator tables gives a well-formed table, with exactly the union of their keys; each column holds exactly its table's values for those keys |
| WbTables.InsertByYear | src/containers/worldbank-container/worldbank_scraper.py:46 | inserting a row adds exactly that row |
| WbTables.InsertKeepsSorted | src/containers/worldbank-container/worldbank_scraper.py:46 | inserting into rows sorted by year keeps them sorted |
| WbTables.SortByYear | src/containers/worldbank-container/worldbank_scraper.py:46 | the result is sorted by year and a permutation of the input |
| WbTables.SortTable | src/containers/worldbank-container/worldbank_scraper.py:46 | sorting keeps the columns and permutes the rows into year order |
| WbTables.SortKeepsContents | src/containers/worldbank-container/worldbank_scraper.py:46 | sorting changes no key, column or value |
| WbTables.MergedContents | src/containers/worldbank-container/worldbank_scraper.py:37-46 | `merge_indicators` gives a table sorted by year with exactly the union of the keys, each column holding exactly its table's values |
| WbTables.MissingIndicatorIsNull | src/containers/worldbank-container/worldbank_scraper.py:44 | a key an indicator lacks is null in that indicator's column |
| WbTables.UnionColumns | src/containers/worldbank-container/worldbank_scraper.py:173 | the concatenation's columns are those of either side, the first side's first |
| WbTables.KeysOfAppend | src/containers/worldbank-container/worldbank_scraper.py:173 | the keys of stacked rows are the keys of each part |
| WbTables.ConcatRows | src/containers/worldbank-container/worldbank_scraper.py:173 | the concatenation's rows, counted with multiplicity, are the frames' rows together; so it holds exactly their rows, as many as they have together, with the union of their keys |
| WbTables.ConcatColumns | src/containers/worldbank-container/worldbank_scraper.py:173 | the concatenation has every frame's columns and is well formed when the frames are |
| WbTables.ConcatContents | src/containers/worldbank-container/worldbank_scraper.py:173 | rows with their multiplicities, row count, keys, columns and well-formedness of `pd.concat` together |
| WorldBankScraper.ParseWbResponse | src/containers/worldbank-container/worldbank_scraper.py:83-97 | a missing, short, null or empty payload gives an empty table; a metadata object where the rows belong fails; otherwise the kept rows under the indicator's column |
| WorldBankScraper.FramesFromCollects | src/containers/worldbank-container/worldbank_scraper.py:109-117 | the loop keeps exactly the non-empty parsed tables, in order, and they can be merged |
| WorldBankScraper.FramesAreNonEmptyParses | src/containers/worldbank-container/worldbank_scraper.py:107-117 | an indicator's table is collected if and only if it is non-empty; nothing else is collected |
| WorldBankScraper.MergeIndicators | src/containers/worldbank-container/worldbank_scraper.py:37-46 | the loop yields `Merged(dfs)`: nothing for no tables, otherwise the left-to-right outer merge sorted by year |
| WorldBankScraper.CountryData | src/containers/worldbank-container/worldbank_scraper.py:100-105 | an unconvertible country name gives an empty table |
| WorldBankScraper.FetchCountryData | src/containers/worldbank-container/worldbank_scraper.py:100-124 | the method computes `CountryData` |
| WorldBankScraper.CountryDataValues | src/containers/worldbank-container/worldbank_scraper.py:100-124 | a country's table is sorted by year; each indicator's column holds exactly that indicator's values under the same keys |
| WorldBankScraper.CountryDataKeys | src/containers/worldbank-container/worldbank_scraper.py:100-124 | a country's table has a row for exactly the keys some indicator returned |
| WorldBankScraper.CountryTables | src/containers/worldbank-container/worldbank_scraper.py:167 | one table per country in order, or the failure of some country |
| WorldBankScraper.NonEmptyFrames | src/containers/worldbank-container/worldbank_scraper.py:170 | keeps exactly the non-empty tables |
| WorldBankScraper.NonEmptyFramesRows | src/containers/worldbank-container/worldbank_scraper.py:170 | dropping empty tables loses no row |
| WorldBankScraper.NonEmptyFramesAllRows | src/containers/worldbank-container/worldbank_scraper.py:170 | dropping empty tables keeps the frames' rows with their multiplicities |
| WorldBankScraper.NoNonEmptyFrames | src/containers/worldbank-container/worldbank_scraper.py:170-172 | nothing is left if and only if every table is empty |
| WorldBankScraper.RunEmptyIffNoData | src/containers/worldbank-container/worldbank_scraper.py:167-172 | the run yields no table exactly when every country's table is empty |
| WorldBankScraper.SortedConcatRows | src/containers/worldbank-container/worldbank_scraper.py:170-173 | the sorted concatenation of the non-empty tables is sorted by year and holds the rows of all tables, each as often as they do |
| WorldBankScraper.RunCombinesCountries | src/containers/worldbank-container/worldbank_scraper.py:167-173 | otherwise the combined table is sorted by year and holds every country's rows, each as often as the countries' tables do, and nothing else |
| WorldBankScraper.BlobFilename | src/containers/worldbank-container/worldbank_scraper.py:160-162 | the name is longer than its fixed prefix and suffix |
| WorldBankScraper.BlobFilenameInjective | src/containers/worldbank-container/worldbank_scraper.py:160-162 | distinct year ranges never share a blob name |
| WorldBankScraper.DefaultRunFails | src/containers/worldbank-container/worldbank_scraper.py:167-173 | the run over `COUNTRIES` with the default years fails exactly when some country's table fails |
| WorldBankScraper.DefaultBlobFilename | src/containers/worldbank-container/worldbank_scraper.py:179 | with the default years the blob is `worldbank/worldbank_data_1989_1991.parquet` |
| IngestWorldBank.RowsOf | src/ingest_worldbank.py:25 | a non-list or short payload gives no rows; otherwise the second element, which must be a row list |
| IngestWorldBank.IndicatorTable | src/ingest_worldbank.py:20-35 | a failed request aborts; the contents are stated by `IndicatorTableRows` |
| IngestWorldBank.IndicatorTableRows | src/ingest_worldbank.py:25-35 | a row entry that is not a list aborts; otherwise the table is the rows with a value, each with year `int(date)` and the value under the indicator's column, and an unreadable date aborts |
| IngestWorldBank.IndicatorTableShape | src/ingest_worldbank.py:27-35 | a fetched table is well formed and has the indicator column exactly when it has rows |
| IngestWorldBank.MergeFrom | src/ingest_worldbank.py:18-41 | a successful loop over at least one indicator leaves a merged table |
| IngestWorldBank.FetchIndicator | src/ingest_worldbank.py:17-45 | the method computes `IndicatorData` |
| IngestWorldBank.MergeStep | src/ingest_worldbank.py:38-41 | a merge step succeeds only with rows on both sides, and continues with their outer merge |
| IngestWorldBank.MergeFromIsFold | src/ingest_worldbank.py:38-41 | the rest of the loop fetches every remaining table, each non-empty, and merges them left to right |
| IngestWorldBank.MergeFromStart | src/ingest_worldbank.py:18-41 | the whole loop over two or more indicators is the left-to-right merge of their tables |
| IngestWorldBank.IndicatorTablesMerge | src/ingest_worldbank.py:8-13 | the four indicator tables can be merged: their columns are distinct |
| IngestWorldBank.MergeFromTables | src/ingest_worldbank.py:18-41 | a successful loop merged one non-empty table per indicator |
| IngestWorldBank.IndicatorDataIsMerge | src/ingest_worldbank.py:17-45 | `fetch_indicator` succeeds only when all four indicators gave rows; the result is `merge_indicators` of those tables |
| IngestWorldBank.IndicatorDataContents | src/ingest_worldbank.py:17-45 | every request succeeded; the result is sorted by year, has exactly the union of the indicators' keys and, per column, exactly that indicator's values |
| IngestWorldBank.CountryFrames | src/ingest_worldbank.py:49 | one table per country in order, or the failure of some country |
| IngestWorldBank.IngestRunContents | src/ingest_worldbank.py:49-50 | the run's table is sorted by year and holds every country's rows, each as often as the countries' tables do, and nothing else |
| IngestWorldBank.ScriptRunFails | src/ingest_worldbank.py:49-50 | the run over `COUNTRIES` from `START` to `END` fails exactly when some country's `fetch_indicator` fails |

## Left out

- HTTP, JSON decoding, `time.sleep`, `print` and the Azure blob uploads (`save_to_blobs`, `upload_to_blob`) are not modelled. Requests are function parameters and uploads are the values returned.
- `human_readable` and `add_human_readable_columns` are not modelled: they format floats as strings. The model keeps the checks they imply; at `src/ingest_worldbank.py:43-44` a table without a `gdp_usd` or `population` column fails.
- `src/helper.py` and `src/containers/utils/helper.py` are not part of this model.
- `pd.to_datetime` is a parameter `toDate`, because pandas' date grammar is not modelled.
- `int(text)` is modelled on ASCII signs and digits only. Python also accepts surrounding whitespace, `_` separators and non-ASCII digits.
- Numerals.ParseDecimal: reads signed decimals only. It leaves out exponents, `inf`, `nan` and surrounding whitespace, all of which `pd.to_numeric` accepts.
- UcdpEvents.Coerce: a text cell padded with whitespace, such as `" 12 "`, is 12 for `pd.to_numeric` but 0 in the model, because `Numerals.ParseDecimal` rejects it.
- `.astype(int)` is modelled on unbounded integers, without 64-bit overflow.
- Indicator values are carried as `real` and never computed on. Floating-point is not modelled.
- UcdpScraper.Scrape: the `while True` loop takes a `fuel` bound on the number of fetches and ends with `OutOfFuel` when it runs out. The model does not describe runs longer than the bound.
- UcdpScraper.Pipeline: the raw table holds only the eleven modelled columns, cast; the other event fields that `main` uploads untouched are not modelled.
- UcdpScraper.Scrape: transport errors and timeouts are not modelled separately. Every failure is a status or a malformed body, and both end the run as an exception would.
- UcdpEvents.RawEvent: only the eleven event fields that the pipeline reads are modelled.
- UcdpAggregate.Aggregate: several pandas crashes are not modelled, and the model returns rows instead.
  - On an empty frame, `df.get(col)` is `None` at line 68. `pd.to_numeric` then returns a scalar NaN, and `.fillna(0)` on it raises `AttributeError`. The model returns no rows.
  - A non-empty batch in which no event has one of `best`, `low`, `high` or `deaths_civilians` crashes at line 68 in the same way. The model coerces that column to zeros.
  - Events missing a group-by column entirely make `groupby` raise `KeyError` at line 72. The model groups them under a null key.
- WbTables.SortByYear: `sort_values("year")` uses an unstable quicksort. The model sorts stably, and its lemmas claim only sortedness and a permutation, never the order of rows within a year.
- WbTables.OuterJoin: the row order of `pd.merge(how="outer")` is not claimed. The model lists left rows and then unmatched right rows; every property is stated up to order.
- WbTables.FoldJoinMerges: requires distinct indicator columns (`Mergeable`). pandas would suffix overlapping column names, and both scripts always merge distinct indicators.
- WbTables.WbRow: a row missing `country.value` or `countryiso3code` raises `KeyError`; the model assumes those keys exist.
- WorldBankScraper.CountryData: `coco.convert` returning the string `"not found"` instead of raising is treated like any other code. Only `None` and `""` are caught, as at lines 62-66 and 103.
- WorldBankScraper.ParseWbResponse: a payload whose first element is not a list, or that is not a list at all, is not modelled. The payload is a sequence of items.
- `START_YEAR` and `END_YEAR` come from the environment; they are the `start` and `end` parameters, with the defaults `1989` and `1991` as constants.
- `convert_csv_to_list` and `get_country_codes` (helper modules) are not part of this model.

## Findings

| source | as written | input that shows it | evidently intended | confidence | as-written member | corrected member |
|---|---|---|---|---|---|---|
| src/containers/ucdp-container/ucdp_scraper.py:41-51 | after the first page, line 51 sets `url` and clears `params`, but line 41 still requests `BASE_URL`; every later request is the bare `BASE_URL` with no country or date filter | any country whose first page has a `NextPageUrl`, against an API whose unfiltered first page also has one: the loop re-fetches that unfiltered page forever and appends its events each time | request `NextPageUrl` (which already carries the query) so that each page of the chain is read once | not executed | UcdpScraper.AsWrittenNeverCompletes | UcdpScraper.CursorFollowingReadsEveryPage |
