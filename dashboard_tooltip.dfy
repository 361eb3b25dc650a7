/**
 * Dashboard.jsx, the chart tooltip: for each series under the cursor, the change in
 * percent from the previous row of the chart, and the colour it is shown in.
 */
module DashboardTooltip {
  import opened JsValues
  import opened DashboardData

  /** Row `i` is the first row of the chart dated `hovered`. */
  predicate FirstDatedAt(chartData: seq<Row>, hovered: string, i: nat)
    requires i < |chartData|
  {
    chartData[i].date == hovered && forall j :: 0 <= j < i ==> chartData[j].date != hovered
  }

  /**
   * `chartData[findIndex(row => row.date === label) - 1]` when that index is above 0:
   * the row before the first row dated `label`; nothing for the first row or an unknown
   * label.
   */
  function PreviousRow(chartData: seq<Row>, hovered: string): (prev: Option<Row>)
    ensures prev.Some? <==> exists i :: 0 < i < |chartData| && FirstDatedAt(chartData, hovered, i)
    ensures prev.Some? ==>
              exists i :: 0 < i < |chartData| && FirstDatedAt(chartData, hovered, i) && prev.value == chartData[i - 1]
  {
    var i := FindIndex(chartData, (row: Row) => row.date == hovered);
    assert forall k :: 0 < k < |chartData| && FirstDatedAt(chartData, hovered, k) ==> i == k by {
      forall k | 0 < k < |chartData| && FirstDatedAt(chartData, hovered, k) ensures i == k {
        assert chartData[k].date == hovered;
      }
    }
    assert i > 0 ==> FirstDatedAt(chartData, hovered, i);
    if i > 0 then Some(chartData[i - 1]) else None
  }

  /** On a chart whose dates are distinct, the previous row of row `i` is row `i - 1`. */
  lemma PreviousRowOfDistinctDates(chartData: seq<Row>, i: nat)
    requires i < |chartData|
    requires Distinct(Dates(chartData))
    ensures PreviousRow(chartData, chartData[i].date) == if i == 0 then None else Some(chartData[i - 1])
  {
    assert forall j :: 0 <= j < i ==> chartData[j].date != chartData[i].date by {
      forall j | 0 <= j < i ensures chartData[j].date != chartData[i].date {
        assert Dates(chartData)[j] != Dates(chartData)[i];
      }
    }
    var idx := FindIndex(chartData, (row: Row) => row.date == chartData[i].date);
    assert idx == i;
  }

  function Abs(x: real): real { if x < 0.0 then -x else x }

  /**
   * The change from `previous` to `current`: `null` unless both cells hold a value;
   * otherwise `(current - previous) / |previous| * 100` when `previous !== 0`, and from
   * a zero baseline 100 for any other current value and 0 for zero. A `NaN` operand of
   * the division gives `NaN`.
   */
  function PercentChange(current: Cell, previous: Cell): (pct: Option<JsNumber>)
    ensures pct.None? <==> current.None? || previous.None?
    ensures previous == Some(NaN) && current.Some? ==> pct == Some(NaN)
  {
    match (current, previous)
    case (Some(c), Some(p)) =>
      Some(if p != Num(0.0) then
             (match (c, p)
              case (Num(cv), Num(pv)) => Num((cv - pv) / Abs(pv) * 100.0)
              case _ => NaN)
           else if c != Num(0.0) then Num(100.0)
           else Num(0.0))
    case _ => None
  }

  /** `prevRow[entry.dataKey]`: a key the row lacks reads as undefined, that is, no value. */
  function CellOf(row: Row, key: string): Cell
  {
    if key in row.values then row.values[key] else None
  }

  /** The change the tooltip shows for series `key` whose value at `label` is `value`. */
  function TooltipChange(chartData: seq<Row>, hovered: string, key: string, value: Cell): (pct: Option<JsNumber>)
    ensures PreviousRow(chartData, hovered).None? ==> pct.None?
    ensures PreviousRow(chartData, hovered).Some? ==>
              pct == PercentChange(value, CellOf(PreviousRow(chartData, hovered).value, key))
    ensures pct.None? <==>
              PreviousRow(chartData, hovered).None? || value.None? || CellOf(PreviousRow(chartData, hovered).value, key).None?
  {
    match PreviousRow(chartData, hovered)
    case None => None
    case Some(prev) => PercentChange(value, CellOf(prev, key))
  }

  datatype Tone = Green | Red | Grey

  /** `pct > 0` green, `pct < 0` red, otherwise grey (also for `null` and `NaN`). */
  function ToneOf(pct: Option<JsNumber>): (tone: Tone)
    ensures tone == Green <==> pct.Some? && pct.value.Num? && pct.value.value > 0.0
    ensures tone == Red <==> pct.Some? && pct.value.Num? && pct.value.value < 0.0
  {
    match pct
    case Some(Num(x)) => if x > 0.0 then Green else if x < 0.0 then Red else Grey
    case _ => Grey
  }

  /**
   * From a non-zero baseline the change goes back to the current value, and its colour
   * says whether the series rose, fell or stayed.
   */
  lemma PercentChangeFromNonZero(c: real, p: real)
    requires p != 0.0
    ensures var pct := PercentChange(Some(Num(c)), Some(Num(p)));
            && pct.Some? && pct.value.Num?
            && p + pct.value.value * Abs(p) / 100.0 == c
            && (ToneOf(pct) == Green <==> c > p)
            && (ToneOf(pct) == Red <==> c < p)
            && (ToneOf(pct) == Grey <==> c == p)
  {
    var x := (c - p) / Abs(p) * 100.0;
    assert Abs(p) > 0.0;
    assert x * Abs(p) / 100.0 == c - p;
    assert x > 0.0 <==> c - p > 0.0;
    assert x < 0.0 <==> c - p < 0.0;
  }

  /**
   * From a zero baseline any other value shows +100% in green, even a negative one or
   * `NaN`; zero again shows 0% in grey.
   */
  lemma PercentChangeFromZero(c: JsNumber)
    ensures c != Num(0.0) ==> PercentChange(Some(c), Some(Num(0.0))) == Some(Num(100.0))
    ensures c != Num(0.0) ==> ToneOf(PercentChange(Some(c), Some(Num(0.0)))) == Green
    ensures PercentChange(Some(Num(0.0)), Some(Num(0.0))) == Some(Num(0.0))
    ensures ToneOf(PercentChange(Some(Num(0.0)), Some(Num(0.0)))) == Grey
  {
  }

  /** A series rising from 30 to 33 shows +10% in green. */
  lemma PercentChangeExample()
    ensures PercentChange(Some(Num(33.0)), Some(Num(30.0))) == Some(Num(10.0))
    ensures ToneOf(PercentChange(Some(Num(33.0)), Some(Num(30.0)))) == Green
  {
  }
}
