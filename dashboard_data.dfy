/**
 * Dashboard.jsx, loading: the rows the CSV parser returns are filtered, the series
 * catalog is read off the first kept row's header, and every kept row is coerced to
 * `{date, [series]: null | number}`; the chart then shows the rows of the selected
 * date range.
 */
module DashboardData {
  import opened JsValues
  import opened ParsedCsv
  import opened DateRanges

  /** A coerced cell: `null` when there is no reading, otherwise a number. */
  type Cell = Option<JsNumber>

  /** A coerced row: its date and one cell per catalog name. */
  datatype Row = Row(date: string, values: map<string, Cell>)

  /** `row.date && Object.keys(row).length > 1`: a non-empty date and some other column. */
  predicate Kept(r: Record)
  {
    Get(r, "date").Some? && Get(r, "date").value != "" && |Keys(r)| > 1
  }

  /** The parser's rows that are kept, in their order. */
  function KeptRecords(records: seq<Record>): (kept: seq<Record>)
    ensures |kept| <= |records|
    ensures forall r :: r in kept <==> r in records && Kept(r)
  {
    Filter(records, Kept)
  }

  /** A header that names a series: neither the date column nor the unnamed column. */
  predicate IsSeriesHeader(k: string)
  {
    k != "date" && k != ""
  }

  /** The first kept row's keys that name a series, in key order. */
  function SeriesHeaders(first: Record): (headers: seq<string>)
    ensures forall k :: k in headers <==> k in Keys(first) && IsSeriesHeader(k)
  {
    Filter(Keys(first), IsSeriesHeader)
  }

  /**
   * The series catalog: the first kept row's keys, less `date` and `''`, each trimmed,
   * in key order. A header that is blank apart from white space trims to `''` and stays.
   */
  function Catalog(first: Record): (names: seq<string>)
    ensures |names| == |SeriesHeaders(first)| <= |first|
    ensures forall i :: 0 <= i < |names| ==> names[i] == Trim(SeriesHeaders(first)[i])
    ensures forall n :: n in names ==> IsTrimmed(n)
    ensures forall k :: k in Keys(first) && IsSeriesHeader(k) ==> Trim(k) in names
  {
    var headers := SeriesHeaders(first);
    var names := seq(|headers|, i requires 0 <= i < |headers| => Trim(headers[i]));
    forall k | k in Keys(first) && IsSeriesHeader(k) ensures Trim(k) in names {
      var i :| 0 <= i < |headers| && headers[i] == k;
      assert names[i] == Trim(k);
    }
    names
  }

  /**
   * One cell after coercion: a missing cell, or one that is empty once its commas are
   * removed, is `null`; any other is `Number` of the text without commas.
   */
  function CellValue(raw: Option<string>): (cell: Cell)
    ensures cell.None? <==> raw.None? || StripCommas(raw.value) == ""
    ensures cell.Some? ==> cell.value == Number(StripCommas(raw.value))
  {
    match raw
    case None => None
    case Some(text) =>
      var digits := StripCommas(text);
      if digits == "" then None else Some(Number(digits))
  }

  /** `row` is what coercing record `r` against `catalog` yields. */
  predicate IsCoercion(r: Record, catalog: seq<string>, row: Row)
  {
    && Get(r, "date") == Some(row.date)
    && row.values.Keys == (set n | n in catalog)
    && forall n :: n in catalog ==> row.values[n] == CellValue(Get(r, n))
  }

  /** The coerced row as a value: the record's date and one cell per catalog name. */
  function CoercedRow(r: Record, catalog: seq<string>): Row
    requires Get(r, "date").Some?
  {
    Row(Get(r, "date").value, map n | n in catalog :: CellValue(Get(r, n)))
  }

  /**
   * The `forEach` that builds `newRow`: the record's date, and for each catalog name the
   * coerced cell of the column with exactly that (trimmed) name. A header that trims to
   * `date` would overwrite the date; the catalog of a loaded table has none.
   */
  method CoerceRow(r: Record, catalog: seq<string>) returns (row: Row)
    requires Get(r, "date").Some?
    requires "date" !in catalog
    ensures row == CoercedRow(r, catalog)
  {
    var values: map<string, Cell> := map[];
    for i := 0 to |catalog|
      invariant forall n :: n in values <==> n in catalog[..i]
      invariant forall n :: n in values ==> values[n] == CellValue(Get(r, n))
    {
      var state := catalog[i];
      var val := Get(r, state);
      if val.Some? {
        val := Some(StripCommas(val.value));
      }
      var cell: Cell := if val == None || val == Some("") then None else Some(Number(val.value));
      assert cell == CellValue(Get(r, state));
      values := values[state := cell];
      assert catalog[..i + 1] == catalog[..i] + [state];
    }
    assert catalog[..|catalog|] == catalog;
    row := Row(Get(r, "date").value, values);
    assert values == CoercedRow(r, catalog).values;
  }

  /** `rows` are the records `kept` coerced against `catalog`, one for one and in order. */
  predicate IsCoercedTable(kept: seq<Record>, catalog: seq<string>, rows: seq<Row>)
  {
    |rows| == |kept| && forall i {:trigger IsCoercion(kept[i], catalog, rows[i])} :: 0 <= i < |kept| ==> IsCoercion(kept[i], catalog, rows[i])
  }

  /** The coerced rows as a value. */
  function CoercedRows(kept: seq<Record>, catalog: seq<string>): seq<Row>
    requires forall r :: r in kept ==> Kept(r)
  {
    seq(|kept|, i requires 0 <= i < |kept| => assert kept[i] in kept; assert Kept(kept[i]); CoercedRow(kept[i], catalog))
  }

  /** `rows.map(...)`: every kept record coerced against the catalog, in order. */
  method CoerceRows(kept: seq<Record>, catalog: seq<string>) returns (rows: seq<Row>)
    requires forall r :: r in kept ==> Kept(r)
    requires "date" !in catalog
    ensures IsCoercedTable(kept, catalog, rows)
    ensures rows == CoercedRows(kept, catalog)
  {
    rows := [];
    for i := 0 to |kept|
      invariant rows == CoercedRows(kept, catalog)[..i]
      invariant forall j :: 0 <= j < i ==> IsCoercion(kept[j], catalog, rows[j])
    {
      assert Kept(kept[i]) by { assert kept[i] in kept; }
      var row := CoerceRow(kept[i], catalog);
      rows := rows + [row];
    }
  }

  /** The loaded table: the coerced rows and the series catalog. */
  datatype Table = Table(rows: seq<Row>, catalog: seq<string>)

  /**
   * The table the `complete` callback loads: the kept records coerced against the first
   * kept record's catalog, or none when no record is kept. Its rows all have a date.
   */
  function LoadedTable(records: seq<Record>): (table: Option<Table>)
    ensures table.None? <==> KeptRecords(records) == []
    ensures table.Some? ==> table.value.rows != []
    ensures table.Some? ==> forall i :: 0 <= i < |table.value.rows| ==> table.value.rows[i].date != ""
  {
    var kept := KeptRecords(records);
    if kept == [] then None
    else
      var rows := CoercedRows(kept, Catalog(kept[0]));
      assert forall i :: 0 <= i < |rows| ==> rows[i].date != "" by {
        forall i | 0 <= i < |rows| ensures rows[i].date != "" {
          assert kept[i] in kept;
        }
      }
      Some(Table(rows, Catalog(kept[0])))
  }

  /**
   * The loaded table is the kept records, each coerced against the first kept record's
   * catalog, one row per kept record and in order.
   */
  lemma LoadedTableRows(records: seq<Record>)
    requires KeptRecords(records) != []
    ensures var kept := KeptRecords(records);
            var table := LoadedTable(records).value;
            table.catalog == Catalog(kept[0]) && IsCoercedTable(kept, table.catalog, table.rows)
  {
    var kept := KeptRecords(records);
    var catalog := Catalog(kept[0]);
    var rows := LoadedTable(records).value.rows;
    forall i | 0 <= i < |kept| ensures IsCoercion(kept[i], catalog, rows[i]) {
      assert kept[i] in kept;
    }
  }

  /** The `complete` callback's table, computed row by row; none when no record is kept. */
  method LoadRows(records: seq<Record>) returns (table: Option<Table>)
    requires KeptRecords(records) != [] ==> "date" !in Catalog(KeptRecords(records)[0])
    ensures table == LoadedTable(records)
  {
    var kept := KeptRecords(records);
    if |kept| == 0 {
      return None;
    }
    var catalog := Catalog(kept[0]);
    var rows := CoerceRows(kept, catalog);
    table := Some(Table(rows, catalog));
  }

  /** A measured zero stays a number, while an empty cell and a missing one are `null`. */
  lemma CellValueCases()
    ensures CellValue(Some("0")) == Some(Num(0.0))
    ensures CellValue(Some("")) == None && CellValue(Some(",")) == None && CellValue(None) == None
  {
    assert StripCommas("0") == "0";
    assert IsDigits("0");
  }

  /** A count written with thousands separators coerces to that count. */
  lemma CellValueOfGrouped(n: nat)
    ensures CellValue(Some(Grouped(n))) == Some(Num(n as real))
  {
    StripGroupedDigits(n);
    NumberOfGrouped(n);
  }

  /**
   * A header with surrounding white space is listed trimmed, but its cells are looked up
   * under the trimmed name, which the record does not have: the whole column is `null`.
   */
  lemma UntrimmedHeaderReadsNull(first: Record, r: Record, k: string, row: Row)
    requires k in Keys(first) && IsSeriesHeader(k)
    requires Trim(k) !in Keys(r)
    requires IsCoercion(r, Catalog(first), row)
    ensures Trim(k) in row.values && row.values[Trim(k)] == None
  {
  }

  /** `rows.map(row => row.date)`. */
  function Dates(data: seq<Row>): (dates: seq<string>)
    ensures |dates| == |data|
    ensures forall i :: 0 <= i < |data| ==> dates[i] == data[i].date
  {
    seq(|data|, i requires 0 <= i < |data| => data[i].date)
  }

  /** `data.filter(row => row.date >= range.start && row.date <= range.end)`. */
  function ChartData(data: seq<Row>, range: DateRange): (shown: seq<Row>)
    ensures forall row :: row in shown <==> row in data && InRange(row.date, range)
  {
    Slice(data, (row: Row) => row.date, range)
  }

  /** A wider range shows every row a narrower one shows, and filtering again changes nothing. */
  lemma ChartDataWiden(data: seq<Row>, narrow: DateRange, wide: DateRange)
    requires Within(narrow, wide)
    ensures ChartData(ChartData(data, wide), narrow) == ChartData(data, narrow)
    ensures forall row :: row in ChartData(data, narrow) ==> row in ChartData(data, wide)
  {
    SliceWithin(data, (row: Row) => row.date, narrow, wide);
  }

  lemma ChartDataIdempotent(data: seq<Row>, range: DateRange)
    ensures ChartData(ChartData(data, range), range) == ChartData(data, range)
  {
    SliceIdempotent(data, (row: Row) => row.date, range);
  }

  /** The chart keeps the rows' order: filtering a concatenation filters each part. */
  lemma ChartDataConcat(a: seq<Row>, b: seq<Row>, range: DateRange)
    ensures ChartData(a + b, range) == ChartData(a, range) + ChartData(b, range)
  {
    SliceConcat(a, b, (row: Row) => row.date, range);
  }
}
