# Brazilian macro-data ingestion pipeline, modelled in Dafny

This project models the ingestion and normalisation core of a small
repository that gathers Brazilian economic indicators:

- **`get_ibge_pib_data.py`** reads the SIDRA quarterly-GDP payload.
  - It skips the header row and drops incomplete records and those that hold the `"..."` sentinel.
  - It splits each `YYYYQQ` period code into a year and a quarter.
  - It dates each record on the last day of its quarter, writes the date with `strftime("%Y-%m-%d")` and sorts the list by that date.
- **`get_worldbank_gdp_data_debug.py`** reads the World Bank annual-GDP payload.
  - It keeps the Brazilian points that have a year and a value.
  - It dates each one on December 31 of its year and sorts them.
  - An exception that escapes the loop leaves the partial list unsorted.
- **`load_all_data_to_supabase_normalized_v2.py`** loads five JSON files into per-indicator PostgreSQL tables.
  - The five are the SELIC, IPCA, PTAX and unemployment series and `pib_trimestral.json`, the list the IBGE script writes. The World Bank list, `gdp_worldbank_usd.json`, is not among them.
  - `normalize_date` accepts `DD/MM/YYYY`, then `YYYY-MM-DD`, and writes `YYYY-MM-DD`.
  - `load_data_batch` validates the records and counts the ones it skips.
  - It cuts the valid list into batches of 100, and upserts and commits each batch on its own.
  - `create_table` picks `NUMERIC(20, 2)` or `NUMERIC(15, 4)` for the value column.
- **`streamlit_app.py`** has two pure helpers.
  - `get_period_groups` splits the span of years into fixed-size groups, counting back from the latest year.
  - `filter_df_by_years` keeps the rows of the selected years and sorts them by date.

Modules:

| file | module | what it holds |
|---|---|---|
| `calendar.dfy` | `Options`, `Calendar` | `Option`; Gregorian dates; zero-padded decimal digits; `strftime("%Y-%m-%d")`; string order |
| `sorting.dfy` | `Sorting` | `list.sort(key=...)` as a stable insertion sort, with its order, permutation and stability lemmas |
| `sequences.dfy` | `Sequences` | the append-if-usable loop shared by the scripts (`Collect`) |
| `series.dfy` | `Series` | the `{data_referencia, valor}` record and the sort by date |
| `pyconv.dfy` | `PyConv` | `int(str)`, `float()` of a decoded JSON value, and `datetime.strptime` for the two formats used |
| `ibge.dfy` | `IbgePib` | `get_ibge_pib_data.py` |
| `worldbank.dfy` | `WorldBankGdp` | `get_worldbank_gdp_data_debug.py` |
| `store.dfy` | `Store` | a table as a map from date to `NUMERIC` value; `INSERT ... ON CONFLICT DO UPDATE` |
| `loader.dfy` | `Loader` | `normalize_date`, `load_data_batch` (the `Database` class) and `create_table` |
| `pipeline.dfy` | `Pipeline` | what the loader does with the IBGE list it loads, and what it would do with the World Bank list, which it does not load |
| `dashboard.dfy` | `Dashboard` | `get_period_groups` and `filter_df_by_years` |

Modelling choices:

- **Inputs.** Payloads are given as values, and the network and the file system are left out.
- **Float text.** `float()` of a string is an abstract partial function `parse: string -> Option<real>`, passed as a parameter. A JSON number is a `real`.
- **Stored values.** A table keeps each value as an integer number of units of `10^-scale`. That is how `NUMERIC(p, s)` stores it: rounded half away from zero, and refused with "numeric field overflow" when it needs more than `p` digits.
- **Database failures.** Any other failure during a batch is the parameter `outage: nat -> bool` (batch index to "the database failed here").
- **Loops.** Each script loop is a `method` with a `while` loop. It is proved equal to a recursive specification function, and the properties are lemmas about that function.

The IBGE script always drops the first payload element as a header (`raw_data[1:]`), so the examples here (`IbgePib.ExamplePayload`) put a header first.

## Model

| member | source | states |
|---|---|---|
| IbgePib.LastDayOfQuarter | get_ibge_pib_data.py:20-31 | A non-integer year or quarter raises ValueError. Quarter 1, 2, 3 or 4 gives March 31, June 30, September 30 or December 31 of the year, and any other quarter gives None. A quarter date in a year datetime refuses raises ValueError; the OverflowError `datetime()` raises beyond a C int cannot arise from the caller's four-character year text (`IbgePib.YearTextFitsCInt`). Every date returned is a valid date. |
| IbgePib.ConvertRow | get_ibge_pib_data.py:59-83 | A row whose period code is missing or empty, or whose value is missing, empty or `"..."`, gives nothing. A complete row gives a record exactly when the first four characters of its code parse to a year in 1 to 9999, the rest parse to a quarter in 1 to 4, and its value text parses as a float. That record is dated on the last day of the quarter, written `YYYY-MM-DD`, and holds that float. |
| IbgePib.YearTextFitsCInt | get_ibge_pib_data.py:20-22 | The year text cut from a period code, at most four characters, parses to a year in -999 to 9999, so `datetime()` never raises OverflowError here. |
| IbgePib.ConvertRows | get_ibge_pib_data.py:59-83 | The loop over the data rows appends exactly the records of the rows that convert, in row order. |
| IbgePib.ProcessPayload | get_ibge_pib_data.py:48-92 | The processed list is the sorted list of converted data rows. It is empty for a payload of at most one element, no longer than the number of data rows, sorted by date, and every date in it is a `YYYY-MM-DD` date. |
| IbgePib.HeaderIgnored | get_ibge_pib_data.py:49-59 | The first element never matters: two payloads that differ only in it give the same output, and a header alone gives an empty list. |
| IbgePib.AcceptedLength | get_ibge_pib_data.py:59-75 | Each data row contributes at most one record. |
| IbgePib.AcceptedMembers | get_ibge_pib_data.py:59-75 | A record is in the list exactly when some data row converts to it, so nothing is invented. |
| IbgePib.AcceptedConcat | get_ibge_pib_data.py:64-80 | Rows are converted independently, so a row that fails removes only its own record and the loop carries on. |
| IbgePib.DuplicatesKept | get_ibge_pib_data.py:59-86 | Two different rows that are dated on the same quarter, with the same or different values, both reach the output in row order: there is no deduplication. |
| IbgePib.OutputDates | get_ibge_pib_data.py:68-70 | Every written date is the `strftime("%Y-%m-%d")` text of a valid date. |
| IbgePib.SplitPeriodCode | get_ibge_pib_data.py:64-66 | For a six-digit code `YYYYQQ`, `code[:4]` parses as the year and `code[4:]` as the quarter. |
| IbgePib.ConvertPeriodCode | get_ibge_pib_data.py:63-75 | A row with code `YYYYQQ` for quarter 1 to 4 and a value `float()` accepts becomes the record dated on the last day of that quarter, holding that value. |
| IbgePib.InvalidQuarterDropped | get_ibge_pib_data.py:68-77 | A code whose quarter is 00 or 05 to 99 gives no record. |
| IbgePib.ExampleRows | get_ibge_pib_data.py:63-75 | `"202301"` with `"1000"` gives `2023-03-31` with 1000.0; a `"..."` value gives nothing; `"202304"` with `"1200"` gives `2023-12-31` with 1200.0. |
| IbgePib.ExamplePayload | get_ibge_pib_data.py:48-86 | A header plus those three rows is written as `[2023-03-31: 1000.0, 2023-12-31: 1200.0]`. |
| IbgePib.OutputSkippingMiddle | get_ibge_pib_data.py:59-86 | For a header and three rows of which only the middle one fails, the output is the sort of the two other records: in row order when the first is not dated after the third, and swapped otherwise. |
| Series.SortByDatePairSwapped | get_ibge_pib_data.py:86 | Two records whose dates are out of order come out swapped. |
| Series.SortByDate | get_ibge_pib_data.py:86 | `list.sort(key=data_referencia)` gives a list that is ordered by the date string, is a permutation of its input, and keeps records with the same date in input order. |
| Series.SortByDateOfSorted | get_worldbank_gdp_data_debug.py:60 | Sorting is idempotent, and a list already in date order is unchanged. |
| Series.SortedIsChronological | get_ibge_pib_data.py:86 | On `YYYY-MM-DD` dates, a list in string order is in chronological order. |
| Calendar.FormatIso | get_ibge_pib_data.py:70 | `strftime("%Y-%m-%d")` writes ten characters with `-` at positions 4 and 7, and the three digit fields read back as the year, month and day. |
| Calendar.IsoOrderIsChronological | get_ibge_pib_data.py:86 | For valid dates, string order of the ISO texts is chronological order (both directions), and equal texts mean equal dates. |
| Calendar.DigitsOrder | get_ibge_pib_data.py:86 | Zero-padded numbers of one width compare as strings exactly as they compare as numbers. |
| Sorting.SortByStable | get_worldbank_gdp_data_debug.py:60 | The sort is stable: the records that share a key keep their input order. |
| Sorting.SortBySorted | get_worldbank_gdp_data_debug.py:60 | The sort orders the records by the key, for any total order. |
| Sorting.SortByPermutes | get_worldbank_gdp_data_debug.py:60 | The sort neither drops nor duplicates a record. |
| PyConv.ParseIntOfDigits | get_ibge_pib_data.py:21-22 | `int()` reads a non-empty run of decimal digits as the number it spells. |
| PyConv.ParseIntOfBlank | get_ibge_pib_data.py:21-22 | `int()` rejects the empty string and a string of blanks. |
| PyConv.ParseIntOfShort | get_ibge_pib_data.py:21 | `int()` of a text of at most four characters, with any blanks, sign and underscores it allows, lies in -999 to 9999. |
| PyConv.FloatOf | get_worldbank_gdp_data_debug.py:53 | `float()` raises TypeError exactly on null, a list or an object, and ValueError exactly on a string `parse` rejects. A number is returned as it is. |
| PyConv.Strptime | load_all_data_to_supabase_normalized_v2.py:77 | A date `strptime` returns is a valid date. |
| PyConv.StrptimeIsoOfIso | load_all_data_to_supabase_normalized_v2.py:74-77 | `"%Y-%m-%d"` reads back every date `strftime("%Y-%m-%d")` writes. |
| PyConv.StrptimeDmyOfIso | load_all_data_to_supabase_normalized_v2.py:74-77 | `"%d/%m/%Y"` rejects every `YYYY-MM-DD` text. |
| PyConv.StrptimeOfDayMonthYear | load_all_data_to_supabase_normalized_v2.py:74-77 | `"%d/%m/%Y"` reads a zero-padded `DD/MM/YYYY` text exactly when the date exists, and `"%Y-%m-%d"` rejects it. |
| PyConv.StrptimeOfBadDayMonthYear | load_all_data_to_supabase_normalized_v2.py:74-77 | A zero-padded `DD/MM/YYYY` whose day is 00 or 32 to 99, or whose month is 00 or 13 to 99, matches neither format. |
| WorldBankGdp.PointOutcome | get_worldbank_gdp_data_debug.py:41-57 | A point is passed over unless it is Brazilian with a non-empty date and a non-null value. A record it keeps comes from an integer year datetime accepts, is dated December 31 of that year and holds `float(value)`. A selected point whose year parses within 1 to 9999 and whose value `float()` accepts is always kept, with that date and that float. The point ends the loop exactly when it is not an object, or when it is selected with an integer year and either the year is beyond a C int (`datetime()` raises OverflowError) or the year is valid and the value is a list or an object (`float()` raises TypeError). |
| WorldBankGdp.FetchGdp | get_worldbank_gdp_data_debug.py:36-72 | Without a non-empty element 1 the list is empty. Otherwise it is the loop's records: sorted when the loop finishes, in append order when an exception cuts it short. It is no longer than the point list, and every date is December 31 of some year. |
| WorldBankGdp.ScanLength | get_worldbank_gdp_data_debug.py:40-54 | Each point contributes at most one record. |
| WorldBankGdp.ScanKeptFromPoints | get_worldbank_gdp_data_debug.py:40-54 | Every record comes from a point whose outcome is to keep exactly that record. |
| WorldBankGdp.ScanKeepsPoints | get_worldbank_gdp_data_debug.py:40-54 | A point that is kept has its record in the list unless an earlier point ended the loop, whether or not a later point ends it. |
| WorldBankGdp.ScanWithoutAbort | get_worldbank_gdp_data_debug.py:40-57 | When no point raises an uncaught exception, the loop appends exactly the kept records of the points, in point order. |
| WorldBankGdp.FirstAbort | get_worldbank_gdp_data_debug.py:40-72 | When point j is the first to raise an uncaught exception, the loop ends with exactly the kept records of the points before j, and the later points are lost. |
| WorldBankGdp.OutputFinished | get_worldbank_gdp_data_debug.py:36-60 | A loop that runs to the end writes the kept records of all points, sorted by date. |
| WorldBankGdp.OutputAborted | get_worldbank_gdp_data_debug.py:40-80 | A loop cut short at point j writes the kept records of the points before j, in append order and unsorted. |
| WorldBankGdp.OverflowYearAborts | get_worldbank_gdp_data_debug.py:47-57 | A Brazilian point dated by a year beyond a C int, such as `3000000000`, ends the loop, because `except ValueError` does not catch the OverflowError. |
| WorldBankGdp.ScanAborts | get_worldbank_gdp_data_debug.py:71-72 | The loop is cut short exactly when some point raises an exception the inner handler does not catch: a point that is not an object, a year beyond a C int, or a list or object value. |
| WorldBankGdp.AbortIsFinal | get_worldbank_gdp_data_debug.py:71-72 | Once an exception has ended the loop, later points change nothing. |
| WorldBankGdp.OutputDates | get_worldbank_gdp_data_debug.py:47-50 | Every written date is December 31 of a year datetime accepts. |
| WorldBankGdp.YearPoint | get_worldbank_gdp_data_debug.py:45-57 | A Brazilian point dated by a four-digit year `Y` becomes the record `Y-12-31`; the year 0000 skips it. |
| WorldBankGdp.YearEndSpelled | get_worldbank_gdp_data_debug.py:49-50 | The date of year `Y` is the four digits of `Y` followed by `-12-31`. |
| Loader.NormalizeDate | load_all_data_to_supabase_normalized_v2.py:72-81 | The result is a date exactly when one of the two formats parses the text, and then it is a `YYYY-MM-DD` date. |
| Loader.NormalizeIso | load_all_data_to_supabase_normalized_v2.py:74-77 | A `YYYY-MM-DD` text of a valid date is returned unchanged. |
| Loader.NormalizeDayMonthYear | load_all_data_to_supabase_normalized_v2.py:74-77 | A zero-padded `DD/MM/YYYY` becomes the `YYYY-MM-DD` of the same date when the date exists, and None otherwise. |
| Loader.NormalizeDayMonthYearOutOfRange | load_all_data_to_supabase_normalized_v2.py:72-81 | A zero-padded `DD/MM/YYYY` whose day is 00 or 32 to 99, or whose month is 00 or 13 to 99, gives None. |
| Loader.NormalizeIdempotent | load_all_data_to_supabase_normalized_v2.py:72-81 | Normalising a normalised date gives it back. |
| Loader.NormalizeRejectsFebruary31 | load_all_data_to_supabase_normalized_v2.py:72-81 | `31/02/2023` is rejected. |
| Loader.ValueColumnType | load_all_data_to_supabase_normalized_v2.py:54 | The column is `NUMERIC(20, 2)` exactly for `pib_trimestral`, and `NUMERIC(15, 4)` exactly for every other table. |
| Loader.Database.CreateTable | load_all_data_to_supabase_normalized_v2.py:50-70 | An existing table is left as it is; a new one starts empty with the column type its name chooses. |
| Loader.ItemRowUsable | load_all_data_to_supabase_normalized_v2.py:95-112 | An item is used exactly when it has a date and a non-null value, the date normalises and `float()` accepts the value; its row is the normalised date and the float. |
| Loader.PrepareRows | load_all_data_to_supabase_normalized_v2.py:95-112 | The validation loop keeps the usable items' rows in input order, and kept plus skipped equals the number of items. |
| Loader.ValidRowsMembers | load_all_data_to_supabase_normalized_v2.py:95-112 | A row is kept exactly when some item produces it, and there are no more rows than items. |
| Loader.BatchEnd | load_all_data_to_supabase_normalized_v2.py:123-124 | A slice `[i:i+100]` ends within the list, holds at most 100 rows, holds exactly 100 unless it reaches the end, and is non-empty when `i` is inside the list. |
| Loader.BatchesCount | load_all_data_to_supabase_normalized_v2.py:123 | There are ceil(n / 100) batches. |
| Loader.BatchAt | load_all_data_to_supabase_normalized_v2.py:123-124 | Batch k is the slice `[100k, min(100k + 100, n))`. |
| Loader.BatchSizes | load_all_data_to_supabase_normalized_v2.py:123-124 | Every batch holds 1 to 100 rows, and every batch but the last exactly 100. |
| Loader.BatchesPrefix | load_all_data_to_supabase_normalized_v2.py:123-124 | The first k batches are the first min(100k, n) rows, in order, and all batches together are the whole list. |
| Loader.FailureIsFinal | load_all_data_to_supabase_normalized_v2.py:121-139 | Once a batch has failed, no later batch is attempted. |
| Loader.CommitStopsAtFailure | load_all_data_to_supabase_normalized_v2.py:121-139 | The loop fails exactly when it stops before the last batch. No outage hit a committed batch, and the failed batch had an outage or a value that overflows the column. |
| Loader.CommittedPrefix | load_all_data_to_supabase_normalized_v2.py:126-129 | The committed table is the upsert of exactly the rows of the committed batches, and `total_inserted` counts those rows. |
| Loader.CommitAllSucceeds | load_all_data_to_supabase_normalized_v2.py:123-132 | When no batch fails, the table is the upsert of all valid rows and `total_inserted` is their number. |
| Loader.CommitNoFailure | load_all_data_to_supabase_normalized_v2.py:123-132 | With no outage and values that fit the column, no batch fails. |
| Loader.LoadCounts | load_all_data_to_supabase_normalized_v2.py:85-118 | Empty input reports that there is no data, and only empty input does. With no valid record, nothing is written and every item is counted as skipped. Otherwise valid plus skipped equals the number of items, and at least one is valid. |
| Loader.LoadSucceeds | load_all_data_to_supabase_normalized_v2.py:123-132 | A load with no failed batch leaves the table as the upsert of all valid rows, and counts them all as inserted. |
| Loader.LoadFailsAtBatch | load_all_data_to_supabase_normalized_v2.py:121-139 | If batch k fails, the table is the upsert of exactly the first 100k rows, so batch k is rolled back and no later batch is in it. `total_inserted` is 100k, and batch k met an outage or a value that overflows the column. |
| Loader.LoadLastWins | load_all_data_to_supabase_normalized_v2.py:89-127 | After a successful load, each loaded date holds the stored value of the last valid row that carries it. |
| Loader.ReloadIdempotent | load_all_data_to_supabase_normalized_v2.py:89-127 | Loading the same data again after a successful load leaves the table unchanged. |
| Loader.Database.LoadDataBatch | load_all_data_to_supabase_normalized_v2.py:83-139 | Only the named table changes, and the new table and the report are those of the load specification. |
| Loader.Database.CommitInBatches | load_all_data_to_supabase_normalized_v2.py:121-139 | The batch loop leaves the table, the inserted count, the batch index and the failure flag that the batch specification gives. |
| Store.StoredValue | load_all_data_to_supabase_normalized_v2.py:126 | A value is refused exactly when its rounding to `scale` decimals needs more than `precision` digits. A stored value has at most `precision` digits and lies within half a unit of the value. |
| Store.StoredValueExact | load_all_data_to_supabase_normalized_v2.py:126 | A value with at most `scale` decimals whose digits fit is stored exactly. |
| Store.UpsertOverlay | load_all_data_to_supabase_normalized_v2.py:89-126 | The upsert succeeds exactly when every value fits, and then overlays the written date-to-value pairs on the table. |
| Store.WrittenKeys | load_all_data_to_supabase_normalized_v2.py:89-126 | The dates written are exactly the dates of the rows. |
| Store.WrittenLastWins | load_all_data_to_supabase_normalized_v2.py:89-126 | A date holds the stored value of the last row that carries it. |
| Store.UpsertOtherDates | load_all_data_to_supabase_normalized_v2.py:89-126 | Dates no row carries keep their presence and value. |
| Store.UpsertIdempotent | load_all_data_to_supabase_normalized_v2.py:89-126 | Upserting the same rows twice is upserting them once. |
| Store.UpsertConcat | load_all_data_to_supabase_normalized_v2.py:123-127 | Upserting a list is upserting its first part, then the rest. |
| Pipeline.IsoDateIsFixedPoint | load_all_data_to_supabase_normalized_v2.py:72-81 | Every `YYYY-MM-DD` text of a valid date is a fixed point of `normalize_date`. |
| Pipeline.ValidRowsOfEmitted | load_all_data_to_supabase_normalized_v2.py:95-112 | Records with such dates all pass validation, unchanged and in order. |
| Pipeline.LoadEmitted | load_all_data_to_supabase_normalized_v2.py:83-139 | Loading such records loads exactly their rows and skips none. |
| Pipeline.IbgeOutputLoads | get_ibge_pib_data.py:68-75 | Every record the IBGE script writes to `pib_trimestral.json`, which the loader loads, passes the loader's validation with its date unchanged. |
| Pipeline.WorldBankOutputLoads | get_worldbank_gdp_data_debug.py:47-54 | If the World Bank list were loaded, every record the script writes, after a finished or an aborted loop, would pass the loader's validation with its date unchanged. The loader's file list does not include it. |
| Dashboard.GetPeriodGroups | streamlit_app.py:62-74 | Empty years or a group size below 1 give no groups. Otherwise group k is the group of span k of the back-to-front spans from max(years) down to min(years). |
| Dashboard.GroupOfSpan | streamlit_app.py:70-72 | A group holds the years `start..end` in order, and its label is `"start-end"` of its own first and last year. |
| Dashboard.DecimalStringRoundTrip | streamlit_app.py:71 | The label's year texts read back as the years. |
| Dashboard.SpansShape | streamlit_app.py:70-72 | Every group lies within `[min_year, max_year]` and holds 1 to `group_size` years. |
| Dashboard.SpansEnds | streamlit_app.py:68-73 | The first group ends at max(years) and the last one starts at min(years). |
| Dashboard.SpansEndAt | streamlit_app.py:68-73 | Group k ends `k * group_size` years before max(years). |
| Dashboard.SpansAdjacent | streamlit_app.py:70-73 | Each group ends exactly `group_size` years before the previous one, right before that one starts. |
| Dashboard.SpansCover | streamlit_app.py:69-73 | A year lies in some group exactly when it lies in `[min_year, max_year]`. |
| Dashboard.SpansDisjoint | streamlit_app.py:69-73 | Later groups lie strictly before earlier ones. |
| Dashboard.GroupsPartition | streamlit_app.py:69-73 | Every year in `[min_year, max_year]` is in exactly one group. |
| Dashboard.RangeMembers | streamlit_app.py:72 | `list(range(a, b + 1))` holds exactly the years from a to b. |
| Dashboard.FilterByYears | streamlit_app.py:144-149 | An empty frame, or one without `ano`, is returned unchanged. Otherwise the result is sorted by date and is a permutation of the rows whose coerced `ano` is selected. |
| Dashboard.FilterByYearsMembers | streamlit_app.py:147-149 | A row is in the filtered frame exactly when it is in the frame and its year is selected. |

## Left out

- The World Bank list is never loaded: `FILES_TO_LOAD` (load_all_data_to_supabase_normalized_v2.py:21-27) names only `pib_trimestral.json` among the fetchers' outputs, not `gdp_worldbank_usd.json`. `Pipeline.WorldBankOutputLoads` states what validation would do if that file were added.
- IbgePib.LastDayOfQuarter: reads a quarter text of any length, `period_code[4:]`, by its value. From Python 3.11, `int()` raises ValueError on more than 4300 digits, which the caller catches, so the source skips such a row. The model skips it only when the value is outside 1 to 4, and keeps it when the value is in range (for example a zero-padded quarter).
- `get_bcb_data.py` is not part of this model. It only fetches a payload and writes it unchanged, and its one computation depends on the wall clock.
- Network and file I/O: `requests`, `response.json()`, `os.makedirs`, `json.dump`, `json.load`. Payloads are parameters, and the written lists are the values returned.
- psycopg2: connections, cursors, SQL text, `commit` and `rollback`. The store is a map per table, a rolled-back batch leaves it untouched, and any database failure other than a numeric overflow is the `outage` parameter.
- `main()` of the loader, including errors from creating tables. `Loader.Database.LoadDataBatch` requires the table to exist, because `main()` creates every table before loading it.
- IEEE floating point. `float()` of a text is the abstract `parse`, and JSON numbers are exact reals. Writing a float to a `NUMERIC` column is modelled as exact rounding of the real value, not as the decimal text psycopg2 sends.
- Unicode: `int()`, `\d` in `strptime` and `str.strip()` also accept non-ASCII digits and blanks. The model accepts ASCII digits and the ASCII blanks only.
- Calendar.FormatIso: always pads the year to four digits. The C library behind `strftime` does not pad years below 1000, so for those years the model differs. Every date in the real data is after 1000.
- Loader items that are not JSON objects, and dates that are not strings. In the source these raise exceptions that escape `load_data_batch`. Here every item is an object with an optional string date.
- Dashboard.FilterByYears: promises sorted order and the permutation, but not the order of rows with equal dates. `sort_values` uses an unstable sort by default.
- Dashboard.FilterByYears: takes `ano` after `pd.to_numeric(errors="coerce")`, as an optional integer. Non-integer numbers and the coercion of arbitrary text are not modelled.
- WorldBankGdp.FetchGdp: the model has no concrete payload example with string dates. The general properties, together with `WorldBankGdp.YearPoint` and `WorldBankGdp.YearEndSpelled`, state the year-to-date mapping.
- IbgePib.ConvertRow: takes each payload element as an object whose `D3C` and `V` are optional strings. The source handles other JSON values as follows.
  - A falsy `D3C` or `V` (0, false, an empty list or object) skips the row, like a missing field.
  - A non-zero number or `true` as `V` passes the `"..."` test and `float()`, so the row is kept.
  - Any other truthy non-string `D3C` raises an exception that is not a ValueError (TypeError at the slice or at `int()`), and nothing catches it.
  - A non-empty list or object as `V`, in a row with a valid quarter, makes `float()` raise TypeError, which nothing catches.
  - An element that is not an object makes `item.get` raise AttributeError, which nothing catches.
  - Each uncaught exception stops the script before it writes any file.
- WorldBankGdp.PointOutcome: takes `date` as an optional string. The source also accepts a truthy JSON number or `true` there and applies `int()` to it, truncating a float.
  - The point is kept when that year is in 1 to 9999, so `true` is year 1.
  - The point is skipped when `int()` or `datetime()` raises ValueError: NaN, or a year within a C int but outside 1 to 9999.
  - The loop ends when `int()` or `datetime()` raises OverflowError: an infinity, or a year beyond a C int.
  - The loop also ends on a non-empty list or object `date`, where `int()` raises TypeError.
- WorldBankGdp.PointOutcome: parses a year string of any length. From Python 3.11, `int()` raises ValueError on a text of more than 4300 digits, so the source skips such a point. The model treats the text by its value instead.
  - It keeps the point when the value is in 1 to 9999 (a zero-padded year, say).
  - It skips the point when the value is within a C int but outside 1 to 9999.
  - It ends the loop when the value is beyond a C int.
- Loader.Database: starts from an empty database. `Valid()` requires every table to have the column type `create_table` would give it, so a table that already exists with another type, which `CREATE TABLE IF NOT EXISTS` keeps, cannot be represented.
- Progress and error messages (`print`), timing (`datetime.now()`), the Streamlit UI, charts, forecasting and the correlation and display-scaling code.
