/**
 * Dashboard.jsx, the component's state and the handlers that change it: the CSV load
 * completing or failing, the effect that resets the selection to the top series, a
 * checkbox toggle, and a new date range from the slider. React applies a handler's
 * updates together and then runs the effects whose dependencies changed; each method
 * below is one handler followed by those effects.
 */
module DashboardState {
  import opened JsValues
  import opened ParsedCsv
  import opened DateRanges
  import opened DashboardData
  import opened DashboardRanking
  import opened DashboardSelection

  /** What the component renders. */
  datatype Screen = LoadingScreen | ErrorScreen(message: string) | MainScreen

  class Dashboard {
    var data: seq<Row>
    var loading: bool
    var error: Option<string>
    var selectedStates: seq<string>
    var dateRange: DateRange
    var availableDates: seq<string>
    var allStates: seq<string>

    /**
     * The dates are the rows' dates, every row has a date, and every selected name is
     * offered by the checkbox list: the aggregate or a catalog name. While the CSV is
     * loading nothing is loaded or selected yet.
     */
    ghost predicate Valid()
      reads this
    {
      && (loading ==> data == [] && selectedStates == [] && allStates == [])
      && availableDates == Dates(data)
      && (forall i :: 0 <= i < |data| ==> data[i].date != "")
      && (forall s :: s in selectedStates ==> s == UnitedStates || s in allStates)
    }

    /** The state before the CSV arrives: loading, nothing loaded, nothing selected. */
    constructor ()
      ensures Valid()
      ensures data == [] && loading && error == None && selectedStates == []
      ensures dateRange == DateRange("", "") && availableDates == [] && allStates == []
    {
      data := [];
      loading := true;
      error := None;
      selectedStates := [];
      dateRange := DateRange("", "");
      availableDates := [];
      allStates := [];
    }

    /**
     * The effect on `[data, dateRange.start, dateRange.end, allStates]`: once there are
     * rows, dates and a catalog, the selection becomes the top series.
     */
    method ResetSelection()
      requires Valid()
      modifies this`selectedStates
      ensures Valid()
      ensures selectedStates
           == if data != [] && availableDates != [] && allStates != []
              then GetTopStates(data, availableDates, dateRange, allStates)
              else old(selectedStates)
    {
      if |data| > 0 && |availableDates| > 0 && |allStates| > 0 {
        selectedStates := GetTopStates(data, availableDates, dateRange, allStates);
      }
    }

    /**
     * The parser's `complete` callback. When some row is kept, the rows and the catalog
     * become the loaded table's, the dates the rows' dates, the range runs from the first
     * row's date to the last row's, and the reset effect runs; in any case loading ends.
     */
    method LoadComplete(records: seq<Record>)
      requires Valid() && loading
      requires KeptRecords(records) != [] ==> "date" !in Catalog(KeptRecords(records)[0])
      modifies this
      ensures Valid()
      ensures !loading && error == old(error)
      ensures LoadedTable(records).None? ==>
                && data == old(data) && availableDates == old(availableDates)
                && dateRange == old(dateRange) && allStates == old(allStates)
                && selectedStates == old(selectedStates)
      ensures LoadedTable(records).Some? ==>
                && data == LoadedTable(records).value.rows
                && allStates == LoadedTable(records).value.catalog
                && dateRange == DateRange(data[0].date, data[|data| - 1].date)
                && selectedStates
                   == if allStates != [] then GetTopStates(data, availableDates, dateRange, allStates)
                      else old(selectedStates)
    {
      var table := LoadRows(records);
      if table.None? {
        loading := false;
      } else {
        Install(table.value);
      }
    }

    /**
     * The state updates of the `complete` callback for a non-empty table, then the reset
     * effect they trigger.
     */
    method Install(table: Table)
      requires Valid() && loading
      requires table.rows != []
      requires forall i :: 0 <= i < |table.rows| ==> table.rows[i].date != ""
      modifies this
      ensures Valid()
      ensures !loading && error == old(error)
      ensures data == table.rows && allStates == table.catalog
      ensures dateRange == DateRange(data[0].date, data[|data| - 1].date)
      ensures selectedStates
              == if allStates != [] then GetTopStates(data, availableDates, dateRange, allStates)
                 else old(selectedStates)
    {
      var rows := table.rows;
      data := rows;
      availableDates := Dates(rows);
      dateRange := DateRange(rows[0].date, rows[|rows| - 1].date);
      allStates := table.catalog;
      loading := false;
      ResetSelection();
    }

    /** The parser's `error` callback. */
    method ParseFailed(message: string)
      requires Valid()
      modifies this`error, this`loading
      ensures Valid()
      ensures error == Some("Error parsing CSV: " + message) && !loading
    {
      error := Some("Error parsing CSV: " + message);
      loading := false;
    }

    /** The fetch, or reading its body, threw. */
    method FetchFailed(message: string)
      requires Valid()
      modifies this`error, this`loading
      ensures Valid()
      ensures error == Some("Error loading CSV file: " + message) && !loading
    {
      error := Some("Error loading CSV file: " + message);
      loading := false;
    }

    /** A checkbox of the list changed; the list offers the aggregate and the catalog. */
    method ToggleState(name: string)
      requires Valid() && !loading
      requires name == UnitedStates || name in allStates
      modifies this`selectedStates
      ensures Valid()
      ensures selectedStates == Toggled(old(selectedStates), name)
    {
      if name in selectedStates {
        selectedStates := Without(selectedStates, name);
      } else {
        selectedStates := selectedStates + [name];
      }
    }

    /**
     * The slider reported a range. A range with a new start or end re-runs the reset
     * effect, so any manual selection is replaced by the top series of the new range.
     */
    method ChangeDateRange(range: DateRange)
      requires Valid() && !loading
      modifies this`dateRange, this`selectedStates
      ensures Valid()
      ensures dateRange == range
      ensures selectedStates
           == if range != old(dateRange) && data != [] && allStates != []
              then GetTopStates(data, availableDates, range, allStates)
              else old(selectedStates)
    {
      var changed := range.start != dateRange.start || range.end != dateRange.end;
      dateRange := range;
      if changed {
        ResetSelection();
      }
    }

    /** Loading first, then an error, then the dashboard. */
    function CurrentScreen(): (screen: Screen)
      reads this
      ensures screen == MainScreen <==> !loading && error.None?
      ensures screen.ErrorScreen? ==> error == Some(screen.message)
    {
      if loading then LoadingScreen
      else if error.Some? then ErrorScreen(error.value)
      else MainScreen
    }

    /** The rows the chart plots. */
    function Chart(): (shown: seq<Row>)
      reads this
      ensures forall row :: row in shown <==> row in data && InRange(row.date, dateRange)
    {
      ChartData(data, dateRange)
    }

    /** One line per selected series, in selection order. */
    function Lines(): (lines: seq<Line>)
      reads this
      ensures |lines| == |selectedStates|
      ensures forall i :: 0 <= i < |lines| ==> lines[i] == Line(selectedStates[i], LineColour(i))
    {
      ChartLines(selectedStates)
    }
  }
}
