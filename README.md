# Curry Company delivery dashboard — record-processing core in Dafny

The dashboard has three Streamlit pages. Each reads the delivery file
`train.csv` into a table, cleans it with `clean_code`, and keeps the rows
chosen in the sidebar:
- orders dated strictly before a chosen day;
- with a chosen road-traffic density.

Each page then draws its charts from grouped counts and means of that table.
This project models those table computations on values and proves what
they promise.

- **Page 1: company view** (`pages/1_visao_empresa.py`)
  - Orders per day.
  - Orders per traffic density, as shares of all orders.
  - Orders per (city, traffic density).
  - Orders per `%U` week. The week column is added to the table in place.
  - Orders per distinct courier in each week.
- **Page 2: couriers view** (`pages/2_visao_entregadores.py`)
  - The ten fastest or slowest couriers of each of the three cities, by mean delivery time.
  - The oldest and youngest courier.
  - The best and worst vehicle condition.
  - The keys of the three rating tables.
- **Page 3: restaurants view** (`pages/3_visao_restaurantes.py`)
  - The mean delivery time with and without a festival.
  - Mean times per city, per (city, traffic density) and per (city, type of order).
  - The number of distinct couriers.

The three pages hold textually identical copies of `clean_code`:
- pages/1_visao_empresa.py:76-124
- pages/2_visao_entregadores.py:34-82
- pages/3_visao_restaurantes.py:88-136

They also hold identical copies of the sidebar filter:
- pages/1_visao_empresa.py:163-168
- pages/2_visao_entregadores.py:121-126
- pages/3_visao_restaurantes.py:175-180

Each is modelled once (modules `Cleaning` and `Filtering`), and the table
below cites the page-1 copy.

**Layout**
- `wrappers.dfy`: Option and Result.
- `text.dfy`: `str.strip`, `int()`, `split(...)[1]`, and Python's string order.
- `calendar.dfy`: dates, `%d-%m-%Y` parsing, and the `%U` week.
- `orders.dfy`: the raw and the cleaned record.
- `series.dfy`: row selection and column conversion.
- `grouping.dfy`: `groupby` keys, counts, means and distinct counts.
- `cleaning.dfy`, `filtering.dfy`: the shared steps.
- `empresa.dfy`, `entregadores.dfy`, `restaurantes.dfy`: the three pages.

**Form.** Most of the core is pandas expressions, modelled as functions
with lemmas. The parts that change things step by step are methods, proved
equal to those functions:
- `clean_code` rebinds `df1` and assigns columns in place (`Cleaning.CleanCode`).
- The sidebar filter rebinds `df1` twice (`Filtering.FilterRows`).
- `order_by_week` writes `df1['week_of_year']`. This is modelled as a
  class `Empresa.Frame` whose field `weekOfYear` the method `OrderByWeek`
  sets. `OrderShareByWeek` fails, as pandas does, when the column is missing.

**Group order.** pandas sorts `groupby` keys ascending, and `GroupKeys`
models this order:
- Text compares by code point.
- Dates compare chronologically.
- A multi-column key compares column by column.

**Two places where the code does less, or other, than it appears to.**
- The time cell is `x.split('(min) ')[1]` (pages/1_visao_empresa.py:121).
  This is the text between the first and the second `"(min) "`, not
  everything after the first. `Text.SecondPiece` models it, and
  `Cleaning.CleanedRowNumbers` states it.
- `clean_code` promises to remove the rows with NaN data
  (pages/1_visao_empresa.py:82, 91). The code does not fully do so:
  - It compares traffic, city and festival with `'NaN'` before trimming.
  - A cell holding `'NaN '`, with its trailing space, therefore passes the
    gate.
  - Trimming then turns it into `'NaN'`.

  `Cleaning.PaddedTrafficSentinelSurvives` exhibits such a row.

## Model

| member | source | states |
|---|---|---|
| Text.Strip | pages/1_visao_empresa.py:109-115 | `str.strip()` leaves text with no whitespace at either end and is never longer |
| Text.StripCutsOnlySpace | pages/1_visao_empresa.py:109-115 | the stripped text is a slice of the input with only whitespace before and after it |
| Text.StripIdempotent | pages/1_visao_empresa.py:109-115 | stripping twice equals stripping once |
| Text.StripPadded | pages/1_visao_empresa.py:109-115 | whitespace around trimmed text is exactly what strip removes |
| Text.ToInt64 | pages/1_visao_empresa.py:104-106 | `astype(int)` on text succeeds exactly when `int()` reads the text and the value fits in 64 bits |
| Text.NatTextParses | pages/1_visao_empresa.py:104-106 | `int(str(n)) == n` for non-negative n |
| Text.NegativeTextParses | pages/1_visao_empresa.py:104-106 | `int(str(-m)) == -m`: the sign is read |
| Text.ParseIntPadded | pages/1_visao_empresa.py:104-106 | `int()` ignores surrounding whitespace |
| Text.NaNIsNotInt | pages/1_visao_empresa.py:92-95 | the missing-value texts `NaN ` and `NaN` are not integers |
| Text.Find | pages/1_visao_empresa.py:121 | the first occurrence of the delimiter, none earlier, or none at all |
| Text.SecondPiece | pages/1_visao_empresa.py:121 | `split(d)[1]` is absent exactly when `d` does not occur |
| Text.SecondPieceBetween | pages/1_visao_empresa.py:121 | when `d` occurs, `split(d)[1]` is the text after the first `d` up to the next `d` or the end, and contains no `d` |
| Text.LessTotal | pages/1_visao_empresa.py:57 | Python's string order, with which group keys sort, is total on distinct strings |
| Text.LessTransitive | pages/1_visao_empresa.py:57 | the string order is transitive |
| Calendar.ParseDayMonthYear | pages/1_visao_empresa.py:118 | parsing `%d-%m-%Y` yields only real calendar days |
| Calendar.ParseFormattedDate | pages/1_visao_empresa.py:118 | parsing a date written as `%d-%m-%Y` gives the date back |
| Calendar.ParseExampleDate | pages/1_visao_empresa.py:118 | `19-03-2022` reads as 19 March 2022 |
| Calendar.NextDayOrdinal | pages/1_visao_empresa.py:163 | the next day is one day later in the chronological order the date filter uses |
| Calendar.WeekdayOfNextDay | pages/1_visao_empresa.py:48 | the weekday advances by one each day, modulo 7 |
| Calendar.SundayWeekCountsSundays | pages/1_visao_empresa.py:48 | `%U`: days before the year's first Sunday are week 0, and each Sunday starts the next week |
| Calendar.WeekText | pages/1_visao_empresa.py:48 | the week text is two digits spelling the `%U` week number |
| Calendar.WeekTextOrder | pages/1_visao_empresa.py:49 | week texts sort as their week numbers do, so weekly groups come out in week order |
| Empresa.WeekExamples | pages/1_visao_empresa.py:48 | 1 Jan 2022 is week 00, 2 Jan 2022 week 01, 11 Feb 2022 week 06 |
| Series.Filter | pages/1_visao_empresa.py:93 | `df.loc[mask, :]` keeps only rows that pass and is never longer |
| Series.FilterCounts | pages/1_visao_empresa.py:93 | a selection keeps each passing row as often as it occurs, and no other row |
| Series.FilterAtKeptPositions | pages/1_visao_empresa.py:93 | a selection is the rows at the passing positions, in increasing position order |
| Series.FilterTwice | pages/1_visao_empresa.py:163-168 | two successive selections equal one selection by both conditions |
| Series.SelectRows | pages/1_visao_empresa.py:93 | the row-by-row selection loop computes `Filter` |
| Series.Convert | pages/1_visao_empresa.py:104 | converting a column succeeds iff every cell converts, giving every cell's value; otherwise it fails with the error of the first failing cell |
| Series.ConvertFailedPrefix | pages/1_visao_empresa.py:104 | once a prefix of the column fails, the whole column fails with that error |
| Series.UpdateRows | pages/1_visao_empresa.py:109 | assigning a column rewrites every row by the update, in place, keeping the row count |
| Series.ConvertColumn | pages/1_visao_empresa.py:104 | the conversion loop, which stops at the first failing cell, computes `Convert` |
| Cleaning.Gate | pages/1_visao_empresa.py:91-101 | the five missing-value selections; stated by `GateIsOneSelection` and `GateKeepsExactlyPassingRows` |
| Cleaning.Clean | pages/1_visao_empresa.py:76-124 | `clean_code` as one function; stated by `CleanIsRowByRow`, `CleanedRowsAreGatedAndTrimmed` and the `CleanedRow…` lemmas, and computed by `CleanCode` |
| Cleaning.GateIsOneSelection | pages/1_visao_empresa.py:91-101 | the five successive sentinel selections select the rows passing all five |
| Cleaning.GateKeepsExactlyPassingRows | pages/1_visao_empresa.py:91-101 | gating keeps exactly the rows without a sentinel, with multiplicity and in order |
| Cleaning.CleanRow | pages/1_visao_empresa.py:103-122 | a cleaned row has its seven text columns trimmed |
| Cleaning.CleanIsRowByRow | pages/1_visao_empresa.py:76-124 | the column-by-column clean succeeds iff every gated row cleans; its rows are those rows cleaned, in order; on failure the error is that of some gated row and no table results |
| Cleaning.CleanedRowsAreGatedAndTrimmed | pages/1_visao_empresa.py:76-124 | each cleaned row comes from a raw row without a sentinel, and stripping it again changes nothing |
| Cleaning.CleanedRowIsStripped | pages/1_visao_empresa.py:108-115 | the text columns of a cleaned row are fixed points of strip |
| Cleaning.CleanedDatesValid | pages/1_visao_empresa.py:118 | every date of the cleaned table is a calendar day |
| Cleaning.CleanedRowNumbers | pages/1_visao_empresa.py:104-122 | age, multiple deliveries and time are `int()` of the raw text, the time of the piece after the first `(min) `, all within 64 bits |
| Cleaning.CleanedRowDate | pages/1_visao_empresa.py:118 | the date is the one the text spells and lies in the timestamp range; it is absent exactly for a NaT text |
| Cleaning.CleanedRowText | pages/1_visao_empresa.py:109-115 | the seven listed text columns are stripped, and the other columns are untouched |
| Cleaning.MissingLabelFails | pages/1_visao_empresa.py:121 | a time text without `(min) ` makes the clean fail with that text |
| Cleaning.TimeAfterLabel | pages/1_visao_empresa.py:121-122 | a labelled time `(min) n` followed by whitespace converts to n |
| Cleaning.TimeExample | pages/1_visao_empresa.py:121-122 | `(min) 33 ` gives 33 |
| Cleaning.PaddedTrafficSentinelSurvives | pages/1_visao_empresa.py:96-111 | a traffic cell `NaN ` passes the gate and is cleaned to `NaN` |
| Cleaning.StripColumn | pages/1_visao_empresa.py:109 | one `.str.strip()` assignment replaces one column of every row and nothing else |
| Cleaning.StripTextColumns | pages/1_visao_empresa.py:109-115 | the seven assignments strip the seven columns of every row |
| Cleaning.CleanCode | pages/1_visao_empresa.py:76-124 | the step-by-step clean computes `Clean` |
| Cleaning.CleanGatedTable | pages/1_visao_empresa.py:103-122 | the column assignments after the gate, stopping at the first failing conversion, compute the clean of the gated table |
| Filtering.Selected | pages/1_visao_empresa.py:163-168 | the two sidebar masks on one row; stated by `SelectionKeepsExactlySelected` and computed by `FilterRows` |
| Filtering.FilterRows | pages/1_visao_empresa.py:163-168 | the two rebindings of `df1` select the rows satisfying both masks, in order |
| Filtering.SelectionKeepsExactlySelected | pages/1_visao_empresa.py:163-168 | the filter keeps exactly the rows dated before the bound whose traffic is a chosen option, with multiplicity and in order |
| Filtering.SelectionKeepsDatesValid | pages/1_visao_empresa.py:163-168 | the filter keeps only rows of the table, so valid dates stay valid |
| Filtering.PageTableDatesValid | pages/1_visao_empresa.py:130-168 | the page's own sequence, `clean_code` and then the sidebar filter, leaves only calendar dates, which the weekly tab requires |
| Filtering.BoundAtEarliestDateLeavesNothing | pages/1_visao_empresa.py:163 | the comparison is strict: a bound no later than every date keeps nothing |
| Filtering.WideSelectionKeepsDatedRows | pages/1_visao_empresa.py:163-168 | with every traffic value chosen and a late bound, exactly the dated rows remain (NaT rows always drop) |
| Grouping.GroupKeys | pages/1_visao_empresa.py:72 | `groupby` keys are ascending without repeats, exactly the keys present |
| Grouping.GroupKeysIgnoreRowOrder | pages/1_visao_empresa.py:72 | the group keys do not depend on row order |
| Grouping.CountTable | pages/1_visao_empresa.py:72 | `groupby().count()` on the keys; stated by `CountTableOfRows` and `CountTotal` |
| Grouping.CountTableOfRows | pages/1_visao_empresa.py:72 | `groupby().count()`: one entry per key present, each count the number of rows with that key, at least 1 |
| Grouping.CountTotal | pages/1_visao_empresa.py:72 | the counts add up to the number of rows |
| Grouping.MeanTable | pages/3_visao_restaurantes.py:32 | `groupby().mean()` on keyed values; stated by `MeanTableOfRows` and `MeanTableSize` |
| Grouping.MeanTableOfRows | pages/3_visao_restaurantes.py:32 | `groupby().mean()`: keys ascending and exactly those present, each mean the sum of its group over its size, between the group's min and max |
| Grouping.MeanTableSize | pages/3_visao_restaurantes.py:32 | a mean table has one entry per distinct key of the rows |
| Grouping.NuniqueTable | pages/1_visao_empresa.py:38 | `groupby().nunique()`; stated by `NuniqueBetween` and, for the weeks, `Empresa.WeekSharesOfRows` |
| Grouping.NuniqueBetween | pages/1_visao_empresa.py:38 | `nunique()` per group is at least 1 and at most the group's row count |
| Grouping.DistinctCount | pages/3_visao_restaurantes.py:196 | there are no more distinct values than entries, and as many when none repeats |
| Empresa.OrderMetric | pages/1_visao_empresa.py:68-74 | `order_metric`'s table; stated by `OrderMetricProperties` and `OrderMetricDays` |
| Empresa.OrderMetricProperties | pages/1_visao_empresa.py:68-74 | days ascending; each count is the number of dated rows of that day, at least 1; the counts total the dated rows |
| Empresa.OrderMetricDays | pages/1_visao_empresa.py:68-74 | every key is one day, and a day has an entry exactly when some row has that date; rows without a date are in no group |
| Empresa.TrafficOrderCity | pages/1_visao_empresa.py:53-59 | `traffic_order_city`'s table; stated by `TrafficOrderCityProperties` and `TrafficOrderCityPairs` |
| Empresa.TrafficOrderCityProperties | pages/1_visao_empresa.py:53-59 | ascending by (city, traffic); each count is the number of rows with that pair, at least 1; the total is the row count |
| Empresa.TrafficOrderCityPairs | pages/1_visao_empresa.py:53-59 | a (city, traffic) entry exists exactly when some row has that pair |
| Empresa.TrafficOrderShare | pages/1_visao_empresa.py:61-66 | `traffic_order_share`'s table; stated by `TrafficOrderShareProperties` |
| Empresa.TrafficOrderShareProperties | pages/1_visao_empresa.py:61-66 | each share is the traffic count over the row count, in (0, 1]; the shares sum to 1; no rows gives no shares |
| Empresa.SharesProperties | pages/1_visao_empresa.py:64 | dividing a count table by its total keeps keys and counts and gives fractions summing to 1 |
| Empresa.WeekColumn | pages/1_visao_empresa.py:48 | `strftime('%U')` of each date, none for a missing date; stated by `WeekGroupOfRows` and `WeekKeysOfRows` |
| Empresa.ByWeek | pages/1_visao_empresa.py:37-38 | the dated rows keyed by their week, with their courier; stated by `WeekGroupOfRows` and `WeekKeysOfRows` |
| Empresa.InnerMerge | pages/1_visao_empresa.py:39 | `pd.merge(how='inner')`; stated by `MergeSameKeys` and `WeekSharesMerge` |
| Empresa.FindKey | pages/1_visao_empresa.py:39 | the first entry with the key, or none when no entry has it |
| Empresa.MergeSameKeys | pages/1_visao_empresa.py:39 | the inner merge of two tables with the same distinct keys pairs each entry with its partner |
| Empresa.RatiosProperties | pages/1_visao_empresa.py:40 | `order_by_deliver` is orders over couriers, at least 1 when couriers do not outnumber orders |
| Empresa.WeekSharesMerge | pages/1_visao_empresa.py:37-39 | after the merge every week keeps its order count and has between 1 and that many couriers |
| Empresa.WeekGroupOfRows | pages/1_visao_empresa.py:37-38 | the week-`s` group holds the courier IDs of exactly the rows dated in week `s`, in row order, one per row |
| Empresa.WeekKeysOfRows | pages/1_visao_empresa.py:37-38 | every weekly key is a single week text, the week of some dated row |
| Empresa.OrderByWeekOfRows | pages/1_visao_empresa.py:48-49 | the `ID` count per `week_of_year` has ascending weeks, one per week of a dated row, each the number of rows dated in that week |
| Empresa.WeekSharesOfRows | pages/1_visao_empresa.py:37-40 | the weekly merge, stated over the rows: weeks ascending and present exactly for dated rows; each entry's orders, couriers and ratio as in `OrderShareByWeekProperties` |
| Empresa.Frame.OrderByWeek | pages/1_visao_empresa.py:44-51 | sets `week_of_year` to each row's `%U` week and returns, in ascending week order, one entry per week some dated row falls in, each counting the rows dated in that week |
| Empresa.Frame.OrderShareByWeek | pages/1_visao_empresa.py:33-42 | fails with `week_of_year` exactly when the column has not been added |
| Empresa.OrderShareByWeekProperties | pages/1_visao_empresa.py:33-42 | weeks ascending, one entry per week some dated row falls in; orders = the rows dated in that week, couriers = the distinct courier IDs among them, 1 ≤ couriers ≤ orders, ratio = orders/couriers ≥ 1 |
| Empresa.WeeklyTab | pages/1_visao_empresa.py:204-213 | running `order_by_week` first makes `order_share_by_week` succeed; both charts list the same weeks with the same order counts |
| Entregadores.SortBy | pages/2_visao_entregadores.py:23 | the sort returns a permutation of the grouped means |
| Entregadores.SortSorted | pages/2_visao_entregadores.py:23 | the result is ordered by city, then by mean in the chosen direction, ties in key order |
| Entregadores.CourierMeans | pages/2_visao_entregadores.py:20-22 | the mean time per (city, courier); stated by `CourierMeansProperties` |
| Entregadores.CourierMeansProperties | pages/2_visao_entregadores.py:20-22 | one mean per (city, courier) pair present, ascending, each the mean of exactly that pair's rows |
| Entregadores.BlockOrder | pages/2_visao_entregadores.py:23-28 | within a city's block the means run non-decreasing (ascending) or non-increasing (descending) |
| Entregadores.BlockLength | pages/2_visao_entregadores.py:26-28 | a city's block holds min(10, number of that city's couriers) entries |
| Entregadores.BlockMembers | pages/2_visao_entregadores.py:26-28 | a block holds only grouped means of its city |
| Entregadores.BlockIsExtreme | pages/2_visao_entregadores.py:23-28 | the block keeps the city's fastest (ascending) or slowest (descending) couriers: every kept mean is at most (at least) every left-out mean of that city, and wins a tie by its key |
| Entregadores.TopDelivers | pages/2_visao_entregadores.py:19-32 | `top_delivers`; stated by `TopDeliversProperties`, `BlockLength`, `BlockOrder`, `BlockMembers` and `BlockIsExtreme` |
| Entregadores.TopDeliversProperties | pages/2_visao_entregadores.py:19-32 | at most 30 entries: Metropolitian, then Urban, then Semi-Urban, no other city, no courier twice, each a grouped mean |
| Entregadores.AbsentCityLeftOut | pages/2_visao_entregadores.py:26-28 | a city without rows contributes nothing |
| Entregadores.Largest | pages/2_visao_entregadores.py:142 | `max()` of a column is absent exactly on an empty table, attained by some row and at least every value |
| Entregadores.Smallest | pages/2_visao_entregadores.py:146 | `min()` of a column is absent exactly on an empty table, attained by some row and at most every value |
| Entregadores.OverallMetrics | pages/2_visao_entregadores.py:141-155 | the four figures of the overall row; stated by `OverallMetricsBounds` |
| Entregadores.OverallMetricsBounds | pages/2_visao_entregadores.py:141-155 | the oldest, youngest, best and worst figures bound every row and are attained; all are absent exactly on an empty table |
| Entregadores.RatingKeysProperties | pages/2_visao_entregadores.py:165-195 | each rating table has one row per distinct courier, traffic or weather value, ascending |
| Restaurantes.LookupDistinct | pages/3_visao_restaurantes.py:59 | selecting one key from a table with distinct keys gives that key's single entry, or nothing when absent |
| Restaurantes.AvgTimeDelivery | pages/3_visao_restaurantes.py:42-61 | `avg_std_time_delivery(…, 'avg_time')`; stated by `AvgTimeDeliveryProperties` |
| Restaurantes.AvgTimeDeliveryProperties | pages/3_visao_restaurantes.py:42-61 | at most one value; none exactly when no row has that festival value; otherwise the sum of those rows' times over their count, between their min and max |
| Restaurantes.CityMeans | pages/3_visao_restaurantes.py:31-40 | `avg_std_time_graph`'s means; stated by `CityMeansProperties` |
| Restaurantes.CityMeansProperties | pages/3_visao_restaurantes.py:31-40 | one bar per city present, ascending, each the mean of that city's rows and between its min and max |
| Restaurantes.CityTrafficMeans | pages/3_visao_restaurantes.py:19-29 | `avg_std_time_on_traffic`'s means; stated by `CityTrafficMeansProperties` |
| Restaurantes.CityTrafficMeansProperties | pages/3_visao_restaurantes.py:19-29 | one entry per (city, traffic) pair present, ascending, each the mean of that pair's rows |
| Restaurantes.CityOrderTypeMeans | pages/3_visao_restaurantes.py:233-237 | the (city, type of order) means; stated by `CityOrderTypeMeansProperties` |
| Restaurantes.CityOrderTypeMeansProperties | pages/3_visao_restaurantes.py:233-237 | one entry per (city, type of order) pair present, ascending, each the mean of that pair's rows |
| Restaurantes.DeliveryUnique | pages/3_visao_restaurantes.py:196 | `delivery_unique`; stated by `DeliveryUniqueBounds` |
| Restaurantes.DeliveryUniqueBounds | pages/3_visao_restaurantes.py:196 | the distinct-courier count is at most the row count, 0 exactly for no rows, and equals the row count when no ID repeats |

## Left out

- Reading `train.csv` (`pd.read_csv`) and its NaN conversion are I/O. The model starts from the rows as text and treats NaN cells as their text.
- The Streamlit sidebar, tabs, metrics and layout, the PIL logo and all plotly and folium figures are presentation only.
  - The model computes the tables the figures are drawn from.
- The slider's defaults and bounds are UI configuration; the chosen day and traffic options are parameters.
- `country_maps` (pages/1_visao_empresa.py:19-31) is left out: it takes medians of float coordinates and draws a folium map.
- `distance` (pages/3_visao_restaurantes.py:63-86) is left out. It calls `haversine`, a foreign function on floats. It also writes a `distance` column into the table, which this model does not have.
- Standard deviations (`std`), `np.round(..., 2)` and the `np.average` colour midpoint are float numerics.
  - The mean tables keep only the means.
  - `Restaurantes.AvgTimeDeliveryProperties` covers only the `op == 'avg_time'` selection, unrounded.
- Restaurantes.AvgTimeDeliveryProperties: the mean is exact real division, not the rounded float pandas computes.
- The same holds for every mean of `Grouping.MeanTableOfRows`. Float rounding and ties broken by float equality are not modelled.
- Delivery_person_Ratings is not parsed as a float (pages/1_visao_empresa.py:105); the model treats ratings as opaque text, so a rating text that `float()` rejects does not make the modelled clean fail. Entregadores.RatingKeysProperties therefore states the rating tables' rows, not their mean ratings.
- `reset_index()` adds an `index` column to the `top_delivers` result. The model keeps only the entries.
- Entregadores.SortSorted: pandas' stable multi-column sort is modelled as sorting by (city, mean time, key). This is the same order, because the groupby output arrives in key order.
- Calendar.ParseDayMonthYear: only ASCII digits are read in the `%d` and `%Y` fields. The patterns' `\d` also matches other Unicode decimal digits, which pandas would then read; the delivery file does not use them.
- Text.ParseInt: only ASCII digits are read. Python's `int()` also accepts other Unicode decimal digits, which the delivery file does not use. Whitespace is Python's `str.isspace` set.
- A date is only a day. The slider's time component is not modelled.
