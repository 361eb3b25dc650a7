/**
 * DateRangeSlider.jsx: the two-handle slider works on indices into the available dates;
 * it shows the range as the indices of its ends and reports a moved handle as the range
 * between the dates at the handles' indices.
 */
module DateRangeSlider {
  import opened JsValues
  import opened DateRanges

  /** `getIndexFromDate(date)`: the first index holding `date`, or -1 when there is none. */
  function IndexFromDate(dates: seq<string>, date: string): (i: int)
    ensures -1 <= i < |dates|
    ensures i == -1 <==> date !in dates
    ensures 0 <= i ==> dates[i] == date && forall j :: 0 <= j < i ==> dates[j] != date
  {
    FindIndex(dates, (d: string) => d == date)
  }

  /** `getDateFromIndex(index)`: the date at `index`, undefined outside the list. */
  function DateFromIndex(dates: seq<string>, index: int): (date: Option<string>)
    ensures date.Some? <==> 0 <= index < |dates|
    ensures date.Some? ==> date.value == dates[index]
  {
    if 0 <= index < |dates| then Some(dates[index]) else None
  }

  /** `currentValues`: the handles sit at the indices of the range's start and end. */
  function CurrentValues(dates: seq<string>, range: DateRange): (values: (int, int))
    ensures range.start in dates ==> 0 <= values.0 < |dates| && dates[values.0] == range.start
    ensures range.end in dates ==> 0 <= values.1 < |dates| && dates[values.1] == range.end
    ensures range.start !in dates ==> values.0 == -1
    ensures range.end !in dates ==> values.1 == -1
  {
    (IndexFromDate(dates, range.start), IndexFromDate(dates, range.end))
  }

  /**
   * `handleChange([i, j])`: the range from the date at `i` to the date at `j`. The
   * widget keeps both handles between `min={0}` and `max={availableDates.length - 1}`.
   */
  function HandleChange(dates: seq<string>, values: (int, int)): (range: DateRange)
    requires 0 <= values.0 < |dates| && 0 <= values.1 < |dates|
    ensures Some(range.start) == DateFromIndex(dates, values.0)
    ensures Some(range.end) == DateFromIndex(dates, values.1)
  {
    DateRange(dates[values.0], dates[values.1])
  }

  /** A listed date survives the trip to its index and back. */
  lemma DateIndexRoundTrip(dates: seq<string>, date: string)
    requires date in dates
    ensures DateFromIndex(dates, IndexFromDate(dates, date)) == Some(date)
  {
  }

  /** With distinct dates an index survives the trip to its date and back. */
  lemma IndexDateRoundTrip(dates: seq<string>, i: int)
    requires Distinct(dates) && 0 <= i < |dates|
    ensures IndexFromDate(dates, DateFromIndex(dates, i).value) == i
  {
  }

  /** Reporting the handles where the range puts them reports the range itself. */
  lemma HandleChangeOfCurrentValues(dates: seq<string>, range: DateRange)
    requires range.start in dates && range.end in dates
    ensures var values := CurrentValues(dates, range);
            0 <= values.0 < |dates| && 0 <= values.1 < |dates| && HandleChange(dates, values) == range
  {
  }

  /** With distinct dates the handles move to where they were dragged. */
  lemma CurrentValuesOfHandleChange(dates: seq<string>, values: (int, int))
    requires Distinct(dates)
    requires 0 <= values.0 < |dates| && 0 <= values.1 < |dates|
    ensures CurrentValues(dates, HandleChange(dates, values)) == values
  {
  }

  /** Each date comes strictly after the one before it. */
  predicate Ascending(dates: seq<string>)
  {
    forall i, j :: 0 <= i < j < |dates| ==> LexLe(dates[i], dates[j]) && dates[i] != dates[j]
  }

  /** On ascending dates, the date at index `k` lies between those at `i` and `j` exactly when `k` does. */
  lemma AscendingInRange(dates: seq<string>, i: int, j: int, k: int)
    requires Ascending(dates)
    requires 0 <= i <= j < |dates| && 0 <= k < |dates|
    ensures InRange(dates[k], DateRange(dates[i], dates[j])) <==> i <= k <= j
  {
    if k < i {
      if LexLe(dates[i], dates[k]) { LexLeAntisymmetric(dates[i], dates[k]); }
    } else if j < k {
      if LexLe(dates[k], dates[j]) { LexLeAntisymmetric(dates[k], dates[j]); }
    } else {
      LexLeReflexive(dates[k]);
      if k == i && k == j {
      } else if k == i {
        assert LexLe(dates[k], dates[j]);
      } else if k == j {
        assert LexLe(dates[i], dates[k]);
      }
    }
  }

  /**
   * On ascending dates, handles at `i <= j` report a range whose start is not after its
   * end, and the dates in that range are exactly those from handle to handle.
   */
  lemma HandleChangeSpan(dates: seq<string>, i: int, j: int)
    requires Ascending(dates)
    requires 0 <= i <= j < |dates|
    ensures LexLe(HandleChange(dates, (i, j)).start, HandleChange(dates, (i, j)).end)
    ensures Slice(dates, (d: string) => d, HandleChange(dates, (i, j))) == dates[i..j + 1]
  {
    var range := HandleChange(dates, (i, j));
    var id := (d: string) => d;
    AscendingInRange(dates, i, j, j);
    var before, span, after := dates[..i], dates[i..j + 1], dates[j + 1..];
    forall m | 0 <= m < |before| ensures !InRange(id(before[m]), range) {
      AscendingInRange(dates, i, j, m);
    }
    forall m | 0 <= m < |span| ensures InRange(id(span[m]), range) {
      AscendingInRange(dates, i, j, i + m);
    }
    forall m | 0 <= m < |after| ensures !InRange(id(after[m]), range) {
      AscendingInRange(dates, i, j, j + 1 + m);
    }
    assert dates == before + (span + after);
    SliceConcat(before, span + after, id, range);
    SliceConcat(span, after, id, range);
    SliceNone(before, id, range);
    SliceAll(span, id, range);
    SliceNone(after, id, range);
  }
}
