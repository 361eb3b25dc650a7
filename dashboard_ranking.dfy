/**
 * Dashboard.jsx, `getTopStates`: the five series with the largest reading on the last
 * date of the selected range, the national aggregate left out. The dashboard selects
 * them by default.
 */
module DashboardRanking {
  import opened JsValues
  import opened ParsedCsv
  import opened DateRanges
  import opened ArraySort
  import opened DashboardData

  /** `latestRow[state] || 0`: a missing cell, `null`, NaN and 0 all rank as 0. */
  function RankValue(row: Row, name: string): (v: real)
    ensures name in row.values && row.values[name].Some? && row.values[name].value.Num? ==>
              v == row.values[name].value.value
    ensures !(name in row.values && row.values[name].Some? && row.values[name].value.Num?) ==> v == 0.0
  {
    if name in row.values then
      match row.values[name]
      case Some(Num(v)) => v
      case _ => 0.0
    else 0.0
  }

  /** `availableDates.filter(date => date >= range.start && date <= range.end)`. */
  function InRangeDates(dates: seq<string>, range: DateRange): seq<string>
  {
    Slice(dates, (d: string) => d, range)
  }

  /**
   * The row the ranking reads: the first row dated on the last in-range date, or none
   * when there is no data, no date in range, or no row with that date.
   */
  function LatestRow(data: seq<Row>, availableDates: seq<string>, range: DateRange): (latest: Option<Row>)
    ensures data == [] ==> latest.None?
    ensures InRangeDates(availableDates, range) == [] ==> latest.None?
    ensures latest.Some? ==>
              && latest.value in data
              && InRange(latest.value.date, range)
              && exists k :: 0 <= k < |availableDates| && availableDates[k] == latest.value.date
                   && forall j :: k < j < |availableDates| ==> !InRange(availableDates[j], range)
    ensures latest.Some? ==>
              exists i :: 0 <= i < |data| && data[i] == latest.value
                && forall j :: 0 <= j < i ==> data[j].date != latest.value.date
  {
    if |data| == 0 then None
    else
      var filteredDates := InRangeDates(availableDates, range);
      if filteredDates == [] then None
      else
        var latestDate := filteredDates[|filteredDates| - 1];
        if latestDate == "" then None
        else
          SliceLast(availableDates, (d: string) => d, range);
          Find(data, (row: Row) => row.date == latestDate)
  }

  /** `allStates.filter(s => s !== 'United States')`. */
  function Candidates(allStates: seq<string>): (names: seq<string>)
    ensures UnitedStates !in names
    ensures forall s :: s in names <==> s in allStates && s != UnitedStates
  {
    Filter(allStates, (s: string) => s != UnitedStates)
  }

  /**
   * `getTopStates()`: no names without a row to rank by; otherwise the first five of the
   * catalog's non-aggregate names by value on that row, largest first.
   */
  function GetTopStates(data: seq<Row>, availableDates: seq<string>, range: DateRange, allStates: seq<string>)
    : (top: seq<string>)
    ensures LatestRow(data, availableDates, range).None? ==> top == []
    ensures |top| <= TopCount
    ensures forall i :: 0 <= i < |top| ==> top[i] in allStates && top[i] != UnitedStates
    ensures LatestRow(data, availableDates, range).Some? ==>
              var row := LatestRow(data, availableDates, range).value;
              && |top| == Min(TopCount, |Candidates(allStates)|)
              && forall i, j :: 0 <= i < j < |top| ==> RankValue(row, top[i]) >= RankValue(row, top[j])
  {
    match LatestRow(data, availableDates, range)
    case None => []
    case Some(row) =>
      var top := TopBy(Candidates(allStates), (name: string) => RankValue(row, name), TopCount);
      assert forall i :: 0 <= i < |top| ==> top[i] in Candidates(allStates) by {
        forall i | 0 <= i < |top| ensures top[i] in Candidates(allStates) {
          assert top[i] in multiset(top);
        }
      }
      top
  }

  /** Every non-aggregate name left out ranks no higher than every name chosen. */
  lemma GetTopStatesDominates(data: seq<Row>, availableDates: seq<string>, range: DateRange,
                              allStates: seq<string>, row: Row)
    requires LatestRow(data, availableDates, range) == Some(row)
    ensures var top := GetTopStates(data, availableDates, range, allStates);
            forall x, y :: x in top && y in multiset(Candidates(allStates)) - multiset(top)
              ==> RankValue(row, y) <= RankValue(row, x)
  {
    TopByDominates(Candidates(allStates), (name: string) => RankValue(row, name), TopCount);
  }

  /** Names of equal value keep their catalog order, and the first of them are the ones chosen. */
  lemma GetTopStatesStable(data: seq<Row>, availableDates: seq<string>, range: DateRange,
                           allStates: seq<string>, row: Row, v: real)
    requires LatestRow(data, availableDates, range) == Some(row)
    ensures WithValue(GetTopStates(data, availableDates, range, allStates), (name: string) => RankValue(row, name), v)
         <= WithValue(Candidates(allStates), (name: string) => RankValue(row, name), v)
  {
    TopByStable(Candidates(allStates), (name: string) => RankValue(row, name), TopCount, v);
  }

  /**
   * On a loaded table (the available dates are the rows' dates, none empty) the ranking
   * finds its row whenever some date lies in the range.
   */
  lemma LatestRowOfLoadedTable(data: seq<Row>, range: DateRange)
    requires forall i :: 0 <= i < |data| ==> data[i].date != ""
    requires InRangeDates(Dates(data), range) != []
    ensures LatestRow(data, Dates(data), range).Some?
  {
    var filtered := InRangeDates(Dates(data), range);
    var last := filtered[|filtered| - 1];
    assert last in filtered;
    var i :| 0 <= i < |data| && Dates(data)[i] == last;
    assert data[i].date == last;
  }
}
