/**
 * TopInventorySummary.jsx: the two "top 5" cards. The regions card ranks the metro rows
 * of the original weekly file by their value in one date column; the states card ranks
 * the cells of one row of the aggregated file. Both rankings sort by
 * `(a, b) => b.value - a.value` and keep the first five.
 */
module TopInventorySummary {
  import opened JsValues
  import opened ParsedCsv
  import opened DateRanges
  import opened ArraySort

  // ---------------------------------------------------------------------------
  // The date column
  // ---------------------------------------------------------------------------

  /** `Object.keys(origData[0]).filter(k => k.match(/^\d{4}-\d{2}-\d{2}$/))`. */
  function DateColumns(header: Record): (cols: seq<string>)
    ensures forall c :: c in cols <==> c in Keys(header) && IsFullDate(c)
  {
    Filter(Keys(header), IsFullDate)
  }

  /**
   * `lastDateCol`: the range's end when it is non-empty and one of the date columns,
   * otherwise the last date column, which is undefined when there is none.
   */
  function LastDateColumn(cols: seq<string>, end: string): (col: Option<string>)
    ensures col.Some? ==> col.value in cols
    ensures col.None? <==> cols == []
    ensures end != "" && end in cols ==> col == Some(end)
    ensures (end == "" || end !in cols) && cols != [] ==> col == Some(cols[|cols| - 1])
  {
    if end != "" && end in cols then Some(end)
    else if cols == [] then None
    else Some(cols[|cols| - 1])
  }

  /** The column of the range's end is used exactly when the header has that date column. */
  lemma LastDateColumnFollowsRange(header: Record, end: string)
    requires IsFullDate(end)
    ensures LastDateColumn(DateColumns(header), end) == Some(end) <==> end in Keys(header)
  {
    var cols := DateColumns(header);
    if end !in Keys(header) && cols != [] {
      assert cols[|cols| - 1] in cols;
    }
  }

  /** The property name `r[lastDateCol]` reads: an undefined column reads key "undefined". */
  function ColumnKey(col: Option<string>): string
  {
    match col
    case Some(name) => name
    case None => "undefined"
  }

  /**
   * `Number((cell || '0').replace(/,/g, ''))`: a missing or empty cell ranks as 0,
   * any other as the number its text reads as once the commas are removed.
   */
  function CellNumber(raw: Option<string>): (n: JsNumber)
    ensures raw == None || raw == Some("") ==> n == Num(0.0)
    ensures raw.Some? && raw.value != "" ==> n == Number(StripCommas(raw.value))
  {
    var text := if raw == None || raw == Some("") then "0" else raw.value;
    assert Number(StripCommas("0")) == Num(0.0) by {
      StripCommasOfDigits("0");
      assert DigitsValue("0") == 0;
    }
    Number(StripCommas(text))
  }

  /** Missing and empty cells rank as 0, and a count with thousands separators as that count. */
  lemma CellNumberCases(n: nat)
    ensures CellNumber(None) == Num(0.0) && CellNumber(Some("")) == Num(0.0)
    ensures CellNumber(Some(Grouped(n))) == Num(n as real)
  {
    assert Number(StripCommas("0")) == Num(0.0) by {
      StripCommasOfDigits("0");
      assert DigitsValue("0") == 0;
    }
    assert Grouped(n) != "" by { StripGroupedDigits(n); }
    NumberOfGrouped(n);
  }

  // ---------------------------------------------------------------------------
  // Top regions
  // ---------------------------------------------------------------------------

  datatype RegionEntry = RegionEntry(region: string, stateName: Option<string>, value: JsNumber)

  /** `r.RegionName && r.RegionName !== 'United States'`. */
  predicate IsRegionRow(r: Record)
  {
    Get(r, "RegionName").Some? && Get(r, "RegionName").value != "" && Get(r, "RegionName").value != UnitedStates
  }

  /** The ranking's key; a ranked value is a number (see `Numeric`). */
  function Score(n: JsNumber): real
  {
    match n
    case Num(v) => v
    case NaN => 0.0
  }

  function RegionScore(e: RegionEntry): real { Score(e.value) }

  /** The entry of one region row: its name, its state name and its value in the column. */
  function RegionEntryOf(r: Record, col: Option<string>): RegionEntry
  {
    var name := Get(r, "RegionName");
    RegionEntry(if name.Some? then name.value else "", Get(r, "StateName"), CellNumber(Get(r, ColumnKey(col))))
  }

  /** `regionRows.map(...)`: one entry per region row, in row order. */
  function RegionEntries(origData: seq<Record>, col: Option<string>): (entries: seq<RegionEntry>)
    ensures |entries| == |Filter(origData, IsRegionRow)|
    ensures forall i :: 0 <= i < |entries| ==> entries[i] == RegionEntryOf(Filter(origData, IsRegionRow)[i], col)
    ensures forall e :: e in entries ==>
              exists r :: r in origData && IsRegionRow(r) && e.region == Get(r, "RegionName").value
                && e.stateName == Get(r, "StateName") && e.value == CellNumber(Get(r, ColumnKey(col)))
  {
    var rows := Filter(origData, IsRegionRow);
    var entries := seq(|rows|, i requires 0 <= i < |rows| => RegionEntryOf(rows[i], col));
    RegionEntriesMembers(origData, col, rows, entries);
    entries
  }

  /** Every entry of a region row names that row's region and state and holds its value. */
  lemma RegionEntriesMembers(origData: seq<Record>, col: Option<string>, rows: seq<Record>, entries: seq<RegionEntry>)
    requires rows == Filter(origData, IsRegionRow)
    requires |entries| == |rows|
    requires forall i :: 0 <= i < |entries| ==> entries[i] == RegionEntryOf(rows[i], col)
    ensures forall e :: e in entries ==>
              exists r :: r in origData && IsRegionRow(r) && e.region == Get(r, "RegionName").value
                && e.stateName == Get(r, "StateName") && e.value == CellNumber(Get(r, ColumnKey(col)))
  {
    forall e | e in entries
      ensures exists r :: r in origData && IsRegionRow(r) && e.region == Get(r, "RegionName").value
                && e.stateName == Get(r, "StateName") && e.value == CellNumber(Get(r, ColumnKey(col)))
    {
      var i :| 0 <= i < |entries| && entries[i] == e;
      assert rows[i] in rows;
    }
  }

  /**
   * The top five entries by value, largest first. With a `NaN` value the comparator
   * is inconsistent and the engine's order is unspecified, so every value is a number.
   */
  function TopRegions(entries: seq<RegionEntry>): (top: seq<RegionEntry>)
    requires forall e :: e in entries ==> e.value.Num?
    ensures |top| == Min(TopCount, |entries|)
    ensures forall i, j :: 0 <= i < j < |top| ==> RegionScore(top[i]) >= RegionScore(top[j])
    ensures multiset(top) <= multiset(entries)
  {
    var top := TopBy(entries, RegionScore, TopCount);
    assert forall e :: e in top ==> e in entries by {
      forall e | e in top ensures e in entries {
        assert e in multiset(top);
      }
    }
    top
  }

  /** No region left out has a larger value than a region in the top five. */
  lemma TopRegionsDominates(entries: seq<RegionEntry>)
    requires forall e :: e in entries ==> e.value.Num?
    ensures forall x, y :: x in TopRegions(entries) && y in multiset(entries) - multiset(TopRegions(entries))
              ==> RegionScore(y) <= RegionScore(x)
  {
    TopByDominates(entries, RegionScore, TopCount);
    forall y | y in multiset(entries) - multiset(TopRegions(entries)) ensures y in entries {
      assert y in multiset(entries);
    }
  }

  /** Regions of equal value keep their order in the file. */
  lemma TopRegionsStable(entries: seq<RegionEntry>, v: real)
    requires forall e :: e in entries ==> e.value.Num?
    ensures WithValue(TopRegions(entries), RegionScore, v) <= WithValue(entries, RegionScore, v)
  {
    TopByStable(entries, RegionScore, TopCount, v);
  }

  /**
   * The regions card: the column it reports (`lastDate`) and its entries, or nothing when
   * the file has no rows, where `Object.keys(origData[0])` throws.
   */
  function RegionSummary(origData: seq<Record>, end: string): (summary: Option<(Option<string>, seq<RegionEntry>)>)
    requires origData != [] ==>
               var col := LastDateColumn(DateColumns(origData[0]), end);
               forall e :: e in RegionEntries(origData, col) ==> e.value.Num?
    ensures summary.None? <==> origData == []
    ensures summary.Some? ==>
              && summary.value.0 == LastDateColumn(DateColumns(origData[0]), end)
              && summary.value.1 == TopRegions(RegionEntries(origData, summary.value.0))
              && |summary.value.1| <= TopCount
              && forall e :: e in summary.value.1 ==>
                   exists r :: r in origData && IsRegionRow(r) && e.region == Get(r, "RegionName").value
  {
    if origData == [] then None
    else
      var col := LastDateColumn(DateColumns(origData[0]), end);
      var entries := RegionEntries(origData, col);
      var top := TopRegions(entries);
      assert forall e :: e in top ==>
               exists r :: r in origData && IsRegionRow(r) && e.region == Get(r, "RegionName").value
      by {
        forall e | e in top
          ensures exists r :: r in origData && IsRegionRow(r) && e.region == Get(r, "RegionName").value
        {
          assert e in multiset(top);
          assert e in entries;
          var r :| r in origData && IsRegionRow(r) && e.region == Get(r, "RegionName").value
                   && e.stateName == Get(r, "StateName") && e.value == CellNumber(Get(r, ColumnKey(col)));
        }
      }
      Some((col, top))
  }

  // ---------------------------------------------------------------------------
  // Top states
  // ---------------------------------------------------------------------------

  /**
   * `lastRow`: the first row dated `end` when `end` is non-empty and such a row exists,
   * otherwise the last row; nothing when the file has no rows, where
   * `Object.entries(undefined)` throws.
   */
  function SnapshotRow(aggData: seq<Record>, end: string): (row: Option<Record>)
    ensures row.None? <==> aggData == []
    ensures row.Some? ==> row.value in aggData
    ensures end != "" && (exists i :: 0 <= i < |aggData| && Get(aggData[i], "date") == Some(end)) ==>
              exists i :: 0 <= i < |aggData| && row == Some(aggData[i]) && Get(aggData[i], "date") == Some(end)
                && forall j :: 0 <= j < i ==> Get(aggData[j], "date") != Some(end)
    ensures aggData != [] && (end == "" || forall i :: 0 <= i < |aggData| ==> Get(aggData[i], "date") != Some(end)) ==>
              row == Some(aggData[|aggData| - 1])
  {
    if aggData == [] then None
    else
      var last := aggData[|aggData| - 1];
      if end != "" then
        match Find(aggData, (r: Record) => Get(r, "date") == Some(end))
        case Some(found) => Some(found)
        case None => Some(last)
      else Some(last)
  }

  datatype StateEntry = StateEntry(state: string, value: JsNumber)

  function StateScore(e: StateEntry): real { Score(e.value) }

  /** A key ranked by the states card: any but `date` and the aggregate, even `''`. */
  predicate IsRankedKey(k: string)
  {
    k != "date" && k != UnitedStates
  }

  predicate IsRankedField(f: Field) { IsRankedKey(f.name) }

  /** The entry of one field: its name and the number its text reads as. */
  function FieldEntry(f: Field): StateEntry
  {
    StateEntry(f.name, CellNumber(Some(f.text)))
  }

  /** `Object.entries(lastRow).filter(...).map(...)`: one entry per ranked field, in field order. */
  function StateEntries(row: Record): (entries: seq<StateEntry>)
    ensures |entries| == |Filter(row, IsRankedField)| <= |row|
    ensures forall i :: 0 <= i < |entries| ==> entries[i] == FieldEntry(Filter(row, IsRankedField)[i])
    ensures forall f :: f in row && IsRankedKey(f.name) ==> FieldEntry(f) in entries
    ensures forall e :: e in entries ==>
              IsRankedKey(e.state) && exists f :: f in row && f.name == e.state && e.value == CellNumber(Some(f.text))
  {
    var ranked := Filter(row, IsRankedField);
    var entries := seq(|ranked|, i requires 0 <= i < |ranked| => FieldEntry(ranked[i]));
    FieldEntriesMembers(row, ranked, entries);
    entries
  }

  /** The entries of the ranked fields are exactly the entries of the row's ranked fields. */
  lemma FieldEntriesMembers(row: Record, ranked: seq<Field>, entries: seq<StateEntry>)
    requires ranked == Filter(row, IsRankedField)
    requires |entries| == |ranked|
    requires forall i :: 0 <= i < |entries| ==> entries[i] == FieldEntry(ranked[i])
    ensures forall f :: f in row && IsRankedKey(f.name) ==> FieldEntry(f) in entries
    ensures forall e :: e in entries ==>
              IsRankedKey(e.state) && exists f :: f in row && f.name == e.state && e.value == CellNumber(Some(f.text))
  {
    forall f | f in row && IsRankedKey(f.name) ensures FieldEntry(f) in entries {
      assert f in ranked;
      var i :| 0 <= i < |ranked| && ranked[i] == f;
      assert entries[i] == FieldEntry(f);
    }
    forall e | e in entries
      ensures IsRankedKey(e.state) && exists f :: f in row && f.name == e.state && e.value == CellNumber(Some(f.text))
    {
      var i :| 0 <= i < |entries| && entries[i] == e;
      assert ranked[i] in ranked;
    }
  }

  /** The top five ranked fields of the snapshot row by value, largest first. */
  function TopStates(entries: seq<StateEntry>): (top: seq<StateEntry>)
    requires forall e :: e in entries ==> e.value.Num?
    ensures |top| == Min(TopCount, |entries|)
    ensures forall i, j :: 0 <= i < j < |top| ==> StateScore(top[i]) >= StateScore(top[j])
    ensures multiset(top) <= multiset(entries)
  {
    var top := TopBy(entries, StateScore, TopCount);
    assert forall e :: e in top ==> e in entries by {
      forall e | e in top ensures e in entries {
        assert e in multiset(top);
      }
    }
    top
  }

  /** No field left out has a larger value than a field in the top five. */
  lemma TopStatesDominates(entries: seq<StateEntry>)
    requires forall e :: e in entries ==> e.value.Num?
    ensures forall x, y :: x in TopStates(entries) && y in multiset(entries) - multiset(TopStates(entries))
              ==> StateScore(y) <= StateScore(x)
  {
    TopByDominates(entries, StateScore, TopCount);
    forall y | y in multiset(entries) - multiset(TopStates(entries)) ensures y in entries {
      assert y in multiset(entries);
    }
  }

  /** Fields of equal value keep their order in the row. */
  lemma TopStatesStable(entries: seq<StateEntry>, v: real)
    requires forall e :: e in entries ==> e.value.Num?
    ensures WithValue(TopStates(entries), StateScore, v) <= WithValue(entries, StateScore, v)
  {
    TopByStable(entries, StateScore, TopCount, v);
  }

  /**
   * Unlike the dashboard's catalog, the states card does not skip the unnamed column: a
   * field named `''` is ranked with the states.
   */
  lemma StateEntriesKeepUnnamedColumn(row: Record, text: string)
    requires Field("", text) in row
    ensures StateEntry("", CellNumber(Some(text))) in StateEntries(row)
  {
  }

  /** The states card, or nothing when the aggregated file has no rows. */
  function StateSummary(aggData: seq<Record>, end: string): (summary: Option<seq<StateEntry>>)
    requires SnapshotRow(aggData, end).Some? ==>
               forall e :: e in StateEntries(SnapshotRow(aggData, end).value) ==> e.value.Num?
    ensures summary.None? <==> aggData == []
    ensures summary.Some? ==>
              && summary.value == TopStates(StateEntries(SnapshotRow(aggData, end).value))
              && |summary.value| <= TopCount
              && forall e :: e in summary.value ==> e in StateEntries(SnapshotRow(aggData, end).value)
  {
    match SnapshotRow(aggData, end)
    case None => None
    case Some(row) =>
      var entries := StateEntries(row);
      var top := TopStates(entries);
      assert forall e :: e in top ==> e in entries by {
        forall e | e in top ensures e in entries {
          assert e in multiset(top);
        }
      }
      Some(top)
  }
}
