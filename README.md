# Zillow housing inventory dashboard — a Dafny model of its data pipeline

The dashboard is a React application. It reads a CSV of weekly housing inventory, one
row per date and one column per state plus the national aggregate "United States". It
plots the selected states over a date range and shows two "top 5" cards. This project
models the client-side pipeline of its three components. It starts from the records the
CSV parser hands over and ends at the values the components render:

- **Dashboard.jsx**, loading (`dashboard_data.dfy`):
  - rows with no date or no other column are dropped;
  - the series catalog is the first kept row's headers, trimmed;
  - every cell becomes `null` or `Number` of its text without commas.
- **Dashboard.jsx**, ranking (`dashboard_ranking.dfy`): `getTopStates` finds the row of
  the last in-range date and ranks the catalog's states by their value on that row. The
  sort is stable and descending, and the first five are kept.
- **Dashboard.jsx**, selection (`dashboard_selection.dfy`):
  - the checkbox toggle;
  - the order of the checkbox list;
  - the 25-colour palette of the chart lines.
- **Dashboard.jsx**, tooltip (`dashboard_tooltip.dfy`): the percent change from the
  previous row of the chart, and its colour.
- **Dashboard.jsx**, state (`dashboard_state.dfy`): the component's state as a class. Its
  methods are the parser callbacks, the effect that resets the selection, the checkbox
  handler and the slider handler.
- **TopInventorySummary.jsx** (`top_inventory_summary.dfy`):
  - the choice of date column and the top five metro regions in it;
  - the choice of snapshot row and the top five of its fields.
- **DateRangeSlider.jsx** (`date_range_slider.dfy`): the mapping between dates and
  slider indices.

Supporting modules model the JavaScript behaviour the components rely on:

- `js_values.dfy`: `Number`, `replace(/,/g, '')`, `trim`, the string `<=`, and `filter`,
  `findIndex` and `find`.
- `array_sort.dfy`: the stable `Array.prototype.sort`, and `sort(...).slice(0, k)`.
- `parsed_csv.dfy`: a parsed record.
- `date_ranges.dfy`: the inclusive date-range filter. It also proves that, for RFC 3339
  `full-date` strings (section 5.6 of RFC 3339), the string order is calendar order, as
  section 5.1 of RFC 3339 intends.

React schedules each state update and runs effects after a handler. The model makes each
handler one method that applies its updates and then runs the effects whose dependencies
changed.

## Model

| member | source | states |
|---|---|---|
| JsValues.NumberOfIntText | src/components/Dashboard.jsx:41 | `Number` reads the decimal text of any integer, with or without a minus sign, back as that integer |
| JsValues.DecimalValue | src/components/Dashboard.jsx:41 | a non-empty run of digits reads as its integer value, and whatever text reads at all reads as a non-negative value |
| JsValues.NumberOfDecimalText | src/components/Dashboard.jsx:41 | `Number` reads digits, a point and digits as the exact decimal value `whole + fraction / 10^len(fraction)` |
| JsValues.NumberOfDecimalExample | src/components/Dashboard.jsx:41 | `"1234.5"` reads as 1234.5 |
| JsValues.NumberOfNonDecimals | src/components/Dashboard.jsx:41 | a lone point, a lone minus sign and a text with two points read as NaN |
| JsValues.StripCommas | src/components/Dashboard.jsx:40 | removing commas drops exactly the commas: the other characters stay, in order, and comma-free text is unchanged |
| JsValues.StripCommasConcat | src/components/Dashboard.jsx:40 | the global comma replacement works piecewise: it distributes over concatenation |
| JsValues.NumberOfGrouped | src/components/Dashboard.jsx:40-41 | a count written with thousands separators reads, once its commas are removed, as that count |
| JsValues.Trim | src/components/Dashboard.jsx:35 | `trim` gives a contiguous part of the text with no white space at either end, and what it drops before and after that part is only white space; trimmed text is unchanged |
| JsValues.TrimIdempotent | src/components/Dashboard.jsx:35 | trimming twice is trimming once |
| JsValues.LexLeTotal | src/components/Dashboard.jsx:76 | any two strings compare under `<=` one way or the other |
| JsValues.LexLeTransitive | src/components/Dashboard.jsx:76 | string `<=` is transitive |
| JsValues.LexLeAntisymmetric | src/components/Dashboard.jsx:76 | strings that are `<=` each other are equal |
| JsValues.Filter | src/components/Dashboard.jsx:32 | `filter` keeps exactly the elements that pass, and is never longer than its input |
| JsValues.FilterConcat | src/components/Dashboard.jsx:110 | filtering keeps order: it distributes over concatenation |
| JsValues.FilterFilter | src/components/Dashboard.jsx:76 | filtering by a weaker and then a stronger condition is filtering by the stronger one |
| JsValues.FilterMultiset | src/components/Dashboard.jsx:103 | a filter keeps every occurrence of an element that passes and none of one that does not |
| JsValues.FindIndex | src/components/DateRangeSlider.jsx:19 | `findIndex` is the first index that passes, or -1 exactly when none does |
| JsValues.Find | src/components/Dashboard.jsx:79 | `find` is the first element that passes, or undefined exactly when none does |
| ArraySort.Sort | src/components/Dashboard.jsx:166 | `sort(compare)` with a consistent comparator returns a permutation of its input, ordered by the comparator |
| ArraySort.SortStable | src/components/Dashboard.jsx:87 | the sort is stable: elements the comparator ties keep their input order |
| ArraySort.TopBy | src/components/Dashboard.jsx:86-88 | `sort((a, b) => b.value - a.value).slice(0, k)` keeps `min(k, n)` of the input's elements, largest value first |
| ArraySort.TopByDominates | src/components/Dashboard.jsx:86-88 | every element left out has a value no larger than every element kept |
| ArraySort.SortKeepsTies | src/components/Dashboard.jsx:87 | sorting by value, largest first, keeps the elements of each value in their input order |
| ArraySort.TopByStable | src/components/Dashboard.jsx:86-88 | the kept elements of one value are, in order, a prefix of the input's elements of that value |
| ParsedCsv.Keys | src/components/Dashboard.jsx:32 | `Object.keys(row)` lists the record's field names, one for one in the record's field order |
| ParsedCsv.Get | src/components/Dashboard.jsx:39 | `row[key]` is undefined exactly when no field has that name, and otherwise the text of a field with that name |
| DateRanges.Slice | src/components/Dashboard.jsx:110 | the range filter keeps exactly the elements dated `start <= date <= end` |
| DateRanges.SliceLast | src/components/Dashboard.jsx:76-77 | the last date in range is the last element of the input dated in the range |
| DateRanges.SliceConcat | src/components/Dashboard.jsx:110 | the range filter keeps order: it distributes over concatenation |
| DateRanges.SliceWithin | src/components/Dashboard.jsx:110 | filtering by a wide range and then by a range within it is filtering by the narrow one, so a wider range keeps a superset |
| DateRanges.SliceIdempotent | src/components/Dashboard.jsx:110 | filtering twice by one range is filtering once |
| DateRanges.SliceAll | src/components/Dashboard.jsx:110 | when every element is in range, the filter keeps the sequence as it is |
| DateRanges.SliceNone | src/components/Dashboard.jsx:110 | when no element is in range, the filter keeps nothing |
| DateRanges.FullDateOrder | src/components/Dashboard.jsx:76 | for `YYYY-MM-DD` strings, the string `<=` holds exactly when the first date is on or before the second by year, month and day |
| DashboardData.KeptRecords | src/components/Dashboard.jsx:32 | a record is kept exactly when it has a non-empty date and more than one field, and order is kept |
| DashboardData.SeriesHeaders | src/components/Dashboard.jsx:35 | a header names a series exactly when it is a key of the first kept row other than `date` and `''` |
| DashboardData.Catalog | src/components/Dashboard.jsx:35 | the catalog is the series headers trimmed, one for one and in key order; so every name is trimmed and every series header's trim is listed |
| DashboardData.CoerceRow | src/components/Dashboard.jsx:36-43 | the `forEach` builds exactly the row that keeps the record's date and maps each catalog name to that name's coerced cell |
| DashboardData.CoerceRows | src/components/Dashboard.jsx:36-44 | every kept record is coerced, in order: each row keeps its record's date, has exactly the catalog's names as keys, and holds under each name the coerced cell (`null` when the field is missing or empty once its commas are removed, otherwise `Number` of the comma-free text) |
| DashboardData.LoadedTable | src/components/Dashboard.jsx:32-44 | there is no table exactly when no record is kept; a table has at least one row, and every row has a non-empty date |
| DashboardData.LoadedTableRows | src/components/Dashboard.jsx:32-44 | the loaded table's catalog is the first kept record's, and its rows are the kept records, each coerced against that catalog, one for one and in order |
| DashboardData.LoadRows | src/components/Dashboard.jsx:31-44 | the callback's filter, catalog and map compute the loaded table, or nothing when no record is kept |
| DashboardData.CellValue | src/components/Dashboard.jsx:39-41 | a cell is `null` exactly when the field is missing or its text is empty once its commas are removed; otherwise it is `Number` of the comma-free text |
| DashboardData.CellValueCases | src/components/Dashboard.jsx:40-41 | a cell `"0"` stays the number 0, while an empty cell, a cell of only commas and a missing cell are `null` |
| DashboardData.CellValueOfGrouped | src/components/Dashboard.jsx:40-41 | a cell holding a count with thousands separators coerces to that count |
| DashboardData.UntrimmedHeaderReadsNull | src/components/Dashboard.jsx:35-41 | a header with surrounding white space is listed trimmed, and its cells are looked up under the trimmed name: when no field has that name, the whole column is `null` |
| DashboardData.Dates | src/components/Dashboard.jsx:46 | the available dates are the rows' dates, index by index |
| DashboardData.ChartData | src/components/Dashboard.jsx:110 | the chart shows exactly the rows dated in the range |
| DashboardData.ChartDataWiden | src/components/Dashboard.jsx:110 | a wider range shows every row a narrower one shows, and narrowing the chart's rows is filtering by the narrow range |
| DashboardData.ChartDataIdempotent | src/components/Dashboard.jsx:110 | filtering the chart's rows by the range again changes nothing |
| DashboardData.ChartDataConcat | src/components/Dashboard.jsx:110 | the chart keeps the rows' order |
| DashboardRanking.LatestRow | src/components/Dashboard.jsx:75-80 | there is no row without data or without a date in range. Otherwise the row is in range and carries the last in-range available date, and it is the first row with that date |
| DashboardRanking.LatestRowOfLoadedTable | src/components/Dashboard.jsx:45-46 | on a loaded table, some date in range is enough for the ranking to find its row |
| DashboardRanking.Candidates | src/components/Dashboard.jsx:82 | the names ranked are exactly the catalog's names other than "United States" |
| DashboardRanking.RankValue | src/components/Dashboard.jsx:84 | `latestRow[state] \|\| 0`: a state ranks by its number on the row when it has one, and as 0 when the cell is missing, `null` or NaN |
| DashboardRanking.GetTopStates | src/components/Dashboard.jsx:74-90 | no names without a row to rank by. Otherwise at most 5 names, all in the catalog and none "United States", with values (`row[s] \|\| 0`) non-increasing, and as many as `min(5, candidates)` |
| DashboardRanking.GetTopStatesDominates | src/components/Dashboard.jsx:82-88 | every candidate left out ranks no higher than every name chosen |
| DashboardRanking.GetTopStatesStable | src/components/Dashboard.jsx:86-88 | names of equal value keep catalog order, and those chosen are the first of them |
| DashboardSelection.Without | src/components/Dashboard.jsx:103 | `filter(s => s !== state)` drops the name and keeps every other name |
| DashboardSelection.WithoutMultiset | src/components/Dashboard.jsx:103 | removal drops every occurrence of the name and keeps every occurrence of the others |
| DashboardSelection.WithoutConcat | src/components/Dashboard.jsx:103 | the names left keep their relative order |
| DashboardSelection.Toggled | src/components/Dashboard.jsx:101-107 | a selected name is removed: the result is the selection without it, shorter and lacking it; any other name is appended at the end |
| DashboardSelection.ToggleTwiceAbsent | src/components/Dashboard.jsx:101-107 | toggling a name that was not selected twice restores the selection |
| DashboardSelection.ToggleTwicePresent | src/components/Dashboard.jsx:101-107 | toggling a selected name twice moves it to the end and drops its repeats, so it is not the identity |
| DashboardSelection.SortedStates | src/components/Dashboard.jsx:163-167 | the checkbox list is "United States", then the selection as it is, then the remaining catalog names as a sorted permutation |
| DashboardSelection.Unselected | src/components/Dashboard.jsx:166 | the names listed after the selection are exactly the catalog's names that are neither "United States" nor selected |
| DashboardSelection.SortedStatesPermutation | src/components/Dashboard.jsx:163-167 | for a duplicate-free catalog and selection, with "United States" not selected, the list is a permutation of the catalog without "United States", plus "United States" once |
| DashboardSelection.SortedStatesRepeatsSelectedAggregate | src/components/Dashboard.jsx:164-165 | a selected "United States" is listed twice |
| DashboardSelection.LineColour | src/components/Dashboard.jsx:242 | every line colour is one of the palette's |
| DashboardSelection.ChartLines | src/components/Dashboard.jsx:237-244 | one line per selected series, in selection order |
| DashboardSelection.PaletteDistinct | src/components/Dashboard.jsx:154-160 | the palette's 25 colours are all different |
| DashboardSelection.ChartLinesDistinctColours | src/components/Dashboard.jsx:237-242 | up to 25 selected series get pairwise different colours |
| DashboardSelection.LineColourCycles | src/components/Dashboard.jsx:242 | a line's colour repeats every 25 positions |
| DashboardTooltip.PreviousRow | src/components/Dashboard.jsx:115-117 | there is a previous row exactly when the first row dated at the label is not the chart's first row; it is the row just before that one |
| DashboardTooltip.PreviousRowOfDistinctDates | src/components/Dashboard.jsx:115-117 | on distinct dates the previous row of row `i` is row `i - 1`, and row 0 has none |
| DashboardTooltip.PercentChange | src/components/Dashboard.jsx:122-132 | the change is `null` exactly when either value is `null`, and NaN from a NaN baseline |
| DashboardTooltip.TooltipChange | src/components/Dashboard.jsx:115-132 | with a previous row the change is the percent change from that row's value under the same series; there is no change exactly when there is no previous row or either value is `null` |
| DashboardTooltip.PercentChangeFromNonZero | src/components/Dashboard.jsx:125-135 | from a non-zero baseline, `previous + change * \|previous\| / 100` is the current value. The colour is green exactly when the value rose, red exactly when it fell, and grey exactly when it stayed |
| DashboardTooltip.PercentChangeFromZero | src/components/Dashboard.jsx:127-135 | from a zero baseline any other value, even a negative one or NaN, is +100% in green; zero again is 0% in grey |
| DashboardTooltip.ToneOf | src/components/Dashboard.jsx:133-135 | green exactly when the change is a positive number, red exactly when it is a negative one, grey otherwise (no change, zero or NaN) |
| DashboardTooltip.PercentChangeExample | src/components/Dashboard.jsx:126-134 | 30 to 33 shows +10% in green |
| DashboardState.Dashboard.constructor | src/components/Dashboard.jsx:14-20 | initially loading, with no data, error, selection, dates, catalog or range |
| DashboardState.Dashboard.ResetSelection | src/components/Dashboard.jsx:93-98 | once data, dates and catalog are non-empty, the selection becomes `getTopStates()`; otherwise it is kept; nothing else changes |
| DashboardState.Dashboard.LoadComplete | src/components/Dashboard.jsx:31-53 | loading ends and the error is kept. With no kept record nothing else changes. Otherwise the data and the catalog are the loaded table's, and the range runs from the first row's date to the last's. The selection is then reset to the top states (when the catalog is non-empty) |
| DashboardState.Dashboard.Install | src/components/Dashboard.jsx:45-52 | for a non-empty table the data, dates, range and catalog are set from it and loading ends, then the reset effect runs; the dashboard's invariant holds throughout |
| DashboardState.Dashboard.ParseFailed | src/components/Dashboard.jsx:54-57 | the error reads "Error parsing CSV: " and the message, and loading ends |
| DashboardState.Dashboard.FetchFailed | src/components/Dashboard.jsx:59-61 | the error reads "Error loading CSV file: " and the message, and loading ends |
| DashboardState.Dashboard.ToggleState | src/components/Dashboard.jsx:101-107 | the selection becomes its toggle by the name, and only the selection changes |
| DashboardState.Dashboard.ChangeDateRange | src/components/Dashboard.jsx:93-98 | the range becomes the reported one. A new start or end resets the selection to the new range's top states, discarding toggles; an unchanged range keeps it |
| DashboardState.Dashboard.CurrentScreen | src/components/Dashboard.jsx:169-185 | the dashboard shows exactly when loading is over and there is no error; an error screen shows the error |
| DashboardState.Dashboard.Chart | src/components/Dashboard.jsx:110 | the chart's rows are the loaded rows dated in the current range |
| DashboardState.Dashboard.Lines | src/components/Dashboard.jsx:237-244 | the line at position `i` is the `i`-th selected series, in colour `i mod 25` |
| TopInventorySummary.DateColumns | src/components/TopInventorySummary.jsx:22 | the date columns are exactly the header keys of the shape `^\d{4}-\d{2}-\d{2}$` |
| TopInventorySummary.LastDateColumn | src/components/TopInventorySummary.jsx:24 | the column is the range's end when that is non-empty and a date column; otherwise the last date column; undefined exactly when there are no date columns |
| TopInventorySummary.LastDateColumnFollowsRange | src/components/TopInventorySummary.jsx:22-24 | for a full-date end, the column is the end exactly when the header has that key |
| TopInventorySummary.CellNumber | src/components/TopInventorySummary.jsx:32 | `(value \|\| '0')`, here and at line 60: a missing or empty cell reads as 0; any other cell as `Number` of its text without commas |
| TopInventorySummary.CellNumberCases | src/components/TopInventorySummary.jsx:32 | a missing or empty cell ranks as 0, and a count with thousands separators as that count |
| TopInventorySummary.RegionEntries | src/components/TopInventorySummary.jsx:27-33 | the region rows are those with a non-empty region name other than "United States"; there is one entry per region row, index by index in file order, carrying its region, state and value in the chosen column |
| TopInventorySummary.TopRegions | src/components/TopInventorySummary.jsx:34-35 | `min(5, n)` of the region entries, value non-increasing |
| TopInventorySummary.TopRegionsDominates | src/components/TopInventorySummary.jsx:34-35 | no region left out has a larger value than a region kept |
| TopInventorySummary.TopRegionsStable | src/components/TopInventorySummary.jsx:34-35 | regions of equal value keep their order in the file |
| TopInventorySummary.RegionSummary | src/components/TopInventorySummary.jsx:20-36 | nothing exactly when the file has no rows; otherwise the chosen column and the top regions of the region entries in that column |
| TopInventorySummary.SnapshotRow | src/components/TopInventorySummary.jsx:50-54 | nothing exactly when the file has no rows. For a non-empty end with a row of that date, the first such row; otherwise the last row |
| TopInventorySummary.StateEntries | src/components/TopInventorySummary.jsx:56-61 | one entry for every field except `date` and "United States", index by index in the row's field order, valued by its text, and none other |
| TopInventorySummary.StateEntriesKeepUnnamedColumn | src/components/TopInventorySummary.jsx:57 | a field named `''` is ranked with the states |
| TopInventorySummary.TopStates | src/components/TopInventorySummary.jsx:62-63 | `min(5, n)` of the entries, value non-increasing |
| TopInventorySummary.TopStatesDominates | src/components/TopInventorySummary.jsx:62-63 | no field left out has a larger value than a field kept |
| TopInventorySummary.TopStatesStable | src/components/TopInventorySummary.jsx:62-63 | fields of equal value keep their order in the row |
| TopInventorySummary.StateSummary | src/components/TopInventorySummary.jsx:48-64 | nothing exactly when the file has no rows; otherwise the top states of the snapshot row's entries |
| DateRangeSlider.IndexFromDate | src/components/DateRangeSlider.jsx:18-20 | the first index holding the date, or -1 exactly when the date is not listed |
| DateRangeSlider.DateFromIndex | src/components/DateRangeSlider.jsx:22-24 | the date at the index, undefined exactly when the index is outside the list |
| DateRangeSlider.CurrentValues | src/components/DateRangeSlider.jsx:26-29 | each handle sits at an index holding its end of the range, or at -1 exactly when that date is not listed |
| DateRangeSlider.HandleChange | src/components/DateRangeSlider.jsx:31-35 | the reported range's start and end are the dates at the two handles |
| DateRangeSlider.DateIndexRoundTrip | src/components/DateRangeSlider.jsx:18-24 | a listed date goes to an index and back unchanged |
| DateRangeSlider.IndexDateRoundTrip | src/components/DateRangeSlider.jsx:18-24 | with distinct dates, an index goes to a date and back unchanged |
| DateRangeSlider.HandleChangeOfCurrentValues | src/components/DateRangeSlider.jsx:26-35 | reporting the handles where the range puts them reports the range itself |
| DateRangeSlider.CurrentValuesOfHandleChange | src/components/DateRangeSlider.jsx:26-35 | with distinct dates, the handles sit where they were dragged |
| DateRangeSlider.AscendingInRange | src/components/DateRangeSlider.jsx:31-35 | on ascending dates, a date lies in the handles' range exactly when its index lies between the handles |
| DateRangeSlider.HandleChangeSpan | src/components/DateRangeSlider.jsx:31-35 | on ascending dates with handles `i <= j`, start is not after end, and the dates in range are exactly those from `i` to `j` |

## Left out

- Fetching the CSV files and tokenising them with Papa Parse (Dashboard.jsx:24-30, TopInventorySummary.jsx:14-19 and :42-47) are I/O and a foreign library. The model starts from the parsed records, and failures are the parameters of `ParseFailed` and `FetchFailed`.
- React scheduling is not modelled: batching, re-renders, and the summary's two concurrent fetches whose last result wins. Each handler with its effects is one method.
- The summary card's state (`topRegions`, `topStates`, `lastDate`, `error`) and its error messages are left out. The model gives the values the card receives, as functions.
- The window-resize listener and the axis tick interval (Dashboard.jsx:21, :67-71, :226-232) are browser globals and presentation.
- Date and number formatting (`formatDateLocal`, `toLocaleString`, `toFixed`) are left out. They call the locale-dependent `Date` and `Intl`.
- The react-range widget's drag handling and the slider track's geometry are left out. `HandleChange` requires what the widget guarantees: both handles lie in `[0, availableDates.length - 1]`.
- Recharts rendering and the JSX markup are a foreign library.
- JsValues.Number: reads an optional minus sign followed by digits, or by digits with one decimal point, as the exact value. JavaScript rounds such values to the nearest double, so integers above 2^53 lose precision and very long digit strings read as Infinity.
- JsValues.Number: other texts (exponents, a leading `+`, surrounding white space, `Infinity`, hexadecimal) read as NaN here, while JavaScript reads them as numbers.
- DashboardTooltip.PercentChange: computed over exact reals. IEEE 754 rounding, infinities and `-0` are not modelled.
- JsValues.LexLe: compares characters as Unicode scalar values. JavaScript compares UTF-16 code units, which differs only for characters outside the Basic Multilingual Plane.
- The parser's `__parsed_extra` field, for lines with more cells than the header, is not modelled. Property names such as `__proto__`, which JavaScript objects treat specially, are not modelled either. Nor is the key order of JavaScript objects: `Object.keys` and `Object.entries` list integer-like keys (`"0"`, `"2024"`) first, in ascending order, before the other keys in insertion order; the model keeps the parser's field order for all keys.
- DashboardState.Dashboard.LoadComplete: requires that no header of the first kept row trims to `date`. Such a column would overwrite the row's date.
- DashboardData.LoadRows, DashboardData.CoerceRows, DashboardData.CoerceRow: require the same of the catalog, for the same reason.
- TopInventorySummary.TopRegions, TopInventorySummary.RegionSummary: require every ranked value to be a number. A NaN value makes the comparator `b.value - a.value` inconsistent, and the resulting order is then implementation-defined.
- TopInventorySummary.TopStates, TopInventorySummary.StateSummary: require every ranked value to be a number, for the same reason.
- TopInventorySummary.RegionSummary, TopInventorySummary.StateSummary: a cell that JavaScript reads as a number but the model reads as NaN (an exponent, a leading `+`, white space) falls outside these requires, so a file holding one is not covered.
- DashboardRanking.RankValue: ranks such a cell as 0, where JavaScript ranks it by its value.
- DashboardSelection.SortedStates: takes `localeCompare` as a parameter, a comparator `precedes(a, b)` meaning `a.localeCompare(b) <= 0`, required to be a total preorder. The locale's collation itself is not modelled.
- DashboardState.Dashboard.ToggleState, DashboardState.Dashboard.ChangeDateRange: require that loading is over. The checkboxes and the slider are only rendered then.
