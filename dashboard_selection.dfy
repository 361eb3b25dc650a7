/**
 * Dashboard.jsx, the selection: toggling a series, the order of the checkbox list, and
 * the colour of each selected series' line.
 */
module DashboardSelection {
  import opened JsValues
  import opened ParsedCsv
  import opened ArraySort
  import opened DashboardRanking

  /** `list.filter(s => s !== name)`. */
  function Without(list: seq<string>, name: string): (r: seq<string>)
    ensures name !in r
    ensures forall x :: x != name ==> (x in r <==> x in list)
  {
    Filter(list, (s: string) => s != name)
  }

  /** Removing a name drops all its occurrences and keeps every other one. */
  lemma WithoutMultiset(list: seq<string>, name: string)
    ensures multiset(Without(list, name)) == multiset(list)[name := 0]
  {
    forall x ensures multiset(Without(list, name))[x] == multiset(list)[name := 0][x] {
      FilterMultiset(list, (s: string) => s != name, x);
    }
  }

  /** The names that stay keep their relative order: removal distributes over concatenation. */
  lemma WithoutConcat(a: seq<string>, b: seq<string>, name: string)
    ensures Without(a + b, name) == Without(a, name) + Without(b, name)
  {
    FilterConcat(a, b, (s: string) => s != name);
  }

  /**
   * `handleStateToggle(name)`: a selected name is removed together with every repeat of
   * it; any other name is appended, so it becomes the last selected.
   */
  function Toggled(selection: seq<string>, name: string): (r: seq<string>)
    ensures name in selection ==> r == Without(selection, name)
    ensures name in selection ==> name !in r && |r| < |selection|
    ensures name !in selection ==> r == selection + [name]
  {
    if name in selection then
      var r := Without(selection, name);
      WithoutMultiset(selection, name);
      assert |multiset(r)| < |multiset(selection)| by {
        var gone := multiset(selection) - multiset(r);
        assert name in gone;
        assert multiset(selection) == multiset(r) + gone;
      }
      r
    else selection + [name]
  }

  /** Toggling a name that was not selected, twice, gives back the selection. */
  lemma ToggleTwiceAbsent(selection: seq<string>, name: string)
    requires name !in selection
    ensures Toggled(Toggled(selection, name), name) == selection
  {
    WithoutConcat(selection, [name], name);
    FilterAll(selection, (s: string) => s != name);
    assert Without([name], name) == [];
  }

  /**
   * Toggling a selected name twice does not give the selection back: the name moves to
   * the end and its repeats are gone.
   */
  lemma ToggleTwicePresent(selection: seq<string>, name: string)
    requires name in selection
    ensures Toggled(Toggled(selection, name), name) == Without(selection, name) + [name]
  {
  }

  // ---------------------------------------------------------------------------
  // sortedStates
  // ---------------------------------------------------------------------------

  /** The catalog names listed after the selection: neither the aggregate nor selected. */
  function Unselected(allStates: seq<string>, selection: seq<string>): (rest: seq<string>)
    ensures forall s :: s in rest <==> s in allStates && s != UnitedStates && s !in selection
  {
    Filter(allStates, (s: string) => s != UnitedStates && s !in selection)
  }

  /**
   * `sortedStates`: the aggregate, then the selection in selection order, then the other
   * catalog names sorted by `precedes`, which stands for `a.localeCompare(b) <= 0`.
   */
  function SortedStates(selection: seq<string>, allStates: seq<string>, precedes: (string, string) -> bool)
    : (order: seq<string>)
    requires TotalPreorder(precedes)
    ensures |order| == 1 + |selection| + |Unselected(allStates, selection)|
    ensures order[0] == UnitedStates && order[1..1 + |selection|] == selection
    ensures SortedBy(order[1 + |selection|..], precedes)
    ensures multiset(order[1 + |selection|..]) == multiset(Unselected(allStates, selection))
  {
    var rest := Sort(Unselected(allStates, selection), precedes);
    var order := [UnitedStates] + selection + rest;
    assert order[1 + |selection|..] == rest;
    order
  }

  lemma DistinctCounts(s: seq<string>)
    ensures Distinct(s) <==> forall x :: multiset(s)[x] <= 1
  {
    if Distinct(s) {
      forall x ensures multiset(s)[x] <= 1 {
        DistinctCount(s, x);
      }
    }
    if !Distinct(s) {
      var i, j :| 0 <= i < j < |s| && s[i] == s[j];
      assert s == s[..j] + s[j..];
      assert s[i] in s[..j];
      assert multiset(s)[s[i]] == multiset(s[..j])[s[i]] + multiset(s[j..])[s[i]];
    }
  }

  lemma {:induction false} DistinctCount(s: seq<string>, x: string)
    requires Distinct(s)
    ensures multiset(s)[x] <= 1
  {
    if s != [] {
      assert s == [s[0]] + s[1..];
      DistinctCount(s[1..], x);
      if s[0] == x {
        assert x !in s[1..];
      }
    }
  }

  /**
   * For a duplicate-free catalog and a duplicate-free selection of catalog names other
   * than the aggregate, the checkbox list is a permutation of the catalog with the
   * aggregate added once.
   */
  lemma SortedStatesPermutation(selection: seq<string>, allStates: seq<string>, precedes: (string, string) -> bool)
    requires TotalPreorder(precedes)
    requires Distinct(allStates) && Distinct(selection)
    requires UnitedStates !in selection
    requires forall s :: s in selection ==> s in allStates
    ensures multiset(SortedStates(selection, allStates, precedes))
         == multiset(Without(allStates, UnitedStates)) + multiset{UnitedStates}
  {
    var order := SortedStates(selection, allStates, precedes);
    var rest := order[1 + |selection|..];
    assert order == [UnitedStates] + selection + rest;
    DistinctCounts(allStates);
    DistinctCounts(selection);
    forall x ensures multiset(order)[x] == (multiset(Without(allStates, UnitedStates)) + multiset{UnitedStates})[x] {
      FilterMultiset(allStates, (s: string) => s != UnitedStates && s !in selection, x);
      FilterMultiset(allStates, (s: string) => s != UnitedStates, x);
      if x in selection {
        assert x in allStates;
      }
    }
  }

  /** The aggregate is listed first unconditionally: selecting it lists it twice. */
  lemma SortedStatesRepeatsSelectedAggregate(selection: seq<string>, allStates: seq<string>,
                                              precedes: (string, string) -> bool)
    requires TotalPreorder(precedes)
    requires UnitedStates in selection
    ensures multiset(SortedStates(selection, allStates, precedes))[UnitedStates] >= 2
  {
    var order := SortedStates(selection, allStates, precedes);
    var rest := order[1 + |selection|..];
    assert order == [UnitedStates] + selection + rest;
  }

  // ---------------------------------------------------------------------------
  // Line colours
  // ---------------------------------------------------------------------------

  /** The chart's 25 line colours. */
  const Palette: seq<string> := [
    "#8884d8", "#82ca9d", "#ffc658", "#ff7300", "#ff0000",
    "#00ff00", "#0000ff", "#ffff00", "#ff00ff", "#00ffff",
    "#800080", "#008000", "#000080", "#800000", "#808000",
    "#ff6b6b", "#4ecdc4", "#45b7d1", "#96ceb4", "#feca57",
    "#ff9ff3", "#54a0ff", "#5f27cd", "#00d2d3", "#ff9f43"
  ]

  datatype Line = Line(name: string, colour: string)

  /** `colors[index % colors.length]`. */
  function LineColour(index: nat): (colour: string)
    ensures colour in Palette
  {
    Palette[index % |Palette|]
  }

  /** One line per selected series, coloured by its position in the selection. */
  function ChartLines(selection: seq<string>): (lines: seq<Line>)
    ensures |lines| == |selection|
    ensures forall i :: 0 <= i < |selection| ==> lines[i].name == selection[i]
  {
    seq(|selection|, i requires 0 <= i < |selection| => Line(selection[i], LineColour(i)))
  }

  lemma PaletteDistinct()
    ensures forall i, j :: 0 <= i < j < |Palette| ==> Palette[i] != Palette[j]
  {
  }

  /** Up to 25 selected series get 25 different colours. */
  lemma ChartLinesDistinctColours(selection: seq<string>)
    requires |selection| <= |Palette|
    ensures forall i, j :: 0 <= i < j < |selection| ==> ChartLines(selection)[i].colour != ChartLines(selection)[j].colour
  {
    var lines := ChartLines(selection);
    forall i | 0 <= i < |selection| ensures lines[i].colour == Palette[i] {
      ColourAtPosition(i);
    }
    PaletteDistinct();
  }

  /** Below 25 a line's colour is the palette entry at its position. */
  lemma ColourAtPosition(index: nat)
    requires index < |Palette|
    ensures LineColour(index) == Palette[index]
  {
    assert |Palette| == 25;
    assert index % 25 == index;
  }

  /** The colour depends only on the position: the 26th line has the first line's colour. */
  lemma LineColourCycles(index: nat)
    ensures LineColour(index + |Palette|) == LineColour(index)
  {
    var n := |Palette|;
    assert n == 25;
    assert (index + n) % n == index % n;
  }
}
