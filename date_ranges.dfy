/**
 * Date ranges over the dashboard's dates. Dates are RFC 3339 `full-date` strings
 * (`YYYY-MM-DD`, section 5.6 of RFC 3339), and both the chart and the ranking select
 * dates with JavaScript's string comparison `start <= date && date <= end`. Section 5.1
 * of RFC 3339 chooses the format so that this comparison is chronological order;
 * `FullDateOrder` proves it for the format's shape.
 */
module DateRanges {
  import opened JsValues

  datatype DateRange = DateRange(start: string, end: string)

  /** `date >= range.start && date <= range.end`. */
  predicate InRange(date: string, range: DateRange)
  {
    LexLe(range.start, date) && LexLe(date, range.end)
  }

  /** The elements whose date lies in the range, in their original order. */
  function Slice<T(!new)>(s: seq<T>, dateOf: T -> string, range: DateRange): (r: seq<T>)
    ensures |r| <= |s|
    ensures forall x :: x in r <==> x in s && InRange(dateOf(x), range)
  {
    Filter(s, x => InRange(dateOf(x), range))
  }

  /** The last element of a slice is the last element of `s` dated in the range. */
  lemma SliceLast<T(!new)>(s: seq<T>, dateOf: T -> string, range: DateRange)
    requires Slice(s, dateOf, range) != []
    ensures var sliced := Slice(s, dateOf, range);
            exists k :: 0 <= k < |s| && s[k] == sliced[|sliced| - 1] && InRange(dateOf(s[k]), range)
              && forall j :: k < j < |s| ==> !InRange(dateOf(s[j]), range)
  {
    FilterLast(s, x => InRange(dateOf(x), range));
  }

  /** A slice that every element falls in keeps the sequence as it is. */
  lemma SliceAll<T(!new)>(s: seq<T>, dateOf: T -> string, range: DateRange)
    requires forall i :: 0 <= i < |s| ==> InRange(dateOf(s[i]), range)
    ensures Slice(s, dateOf, range) == s
  {
    FilterAll(s, x => InRange(dateOf(x), range));
  }

  /** A slice that no element falls in is empty. */
  lemma SliceNone<T(!new)>(s: seq<T>, dateOf: T -> string, range: DateRange)
    requires forall i :: 0 <= i < |s| ==> !InRange(dateOf(s[i]), range)
    ensures Slice(s, dateOf, range) == []
  {
    FilterNoneOf(s, x => InRange(dateOf(x), range));
  }

  /** `inner` lies within `outer`. */
  predicate Within(inner: DateRange, outer: DateRange)
  {
    LexLe(outer.start, inner.start) && LexLe(inner.end, outer.end)
  }

  /** Slicing keeps order: it distributes over concatenation. */
  lemma SliceConcat<T(!new)>(a: seq<T>, b: seq<T>, dateOf: T -> string, range: DateRange)
    ensures Slice(a + b, dateOf, range) == Slice(a, dateOf, range) + Slice(b, dateOf, range)
  {
    FilterConcat(a, b, x => InRange(dateOf(x), range));
  }

  /**
   * Narrowing a slice to a range within it is slicing directly by the narrower range; so
   * widening the range never drops a row, and slicing twice by one range is slicing once.
   */
  lemma SliceWithin<T(!new)>(s: seq<T>, dateOf: T -> string, narrow: DateRange, wide: DateRange)
    requires Within(narrow, wide)
    ensures Slice(Slice(s, dateOf, wide), dateOf, narrow) == Slice(s, dateOf, narrow)
    ensures forall x :: x in Slice(s, dateOf, narrow) ==> x in Slice(s, dateOf, wide)
  {
    forall d | InRange(d, narrow) ensures InRange(d, wide) {
      LexLeTransitive(wide.start, narrow.start, d);
      LexLeTransitive(d, narrow.end, wide.end);
    }
    FilterFilter(s, x => InRange(dateOf(x), wide), x => InRange(dateOf(x), narrow));
  }

  lemma SliceIdempotent<T(!new)>(s: seq<T>, dateOf: T -> string, range: DateRange)
    ensures Slice(Slice(s, dateOf, range), dateOf, range) == Slice(s, dateOf, range)
  {
    LexLeReflexive(range.start);
    LexLeReflexive(range.end);
    SliceWithin(s, dateOf, range, range);
  }

  // ---------------------------------------------------------------------------
  // RFC 3339 full-date strings compare chronologically
  // ---------------------------------------------------------------------------

  /** The shape `^\d{4}-\d{2}-\d{2}$`: four, two and two decimal digits joined by hyphens. */
  predicate IsFullDate(s: string)
  {
    |s| == 10 && s[4] == '-' && s[7] == '-'
    && IsDigits(s[..4]) && IsDigits(s[5..7]) && IsDigits(s[8..])
  }

  function Year(s: string): nat requires IsFullDate(s) { DigitsValue(s[..4]) }
  function Month(s: string): nat requires IsFullDate(s) { DigitsValue(s[5..7]) }
  function Day(s: string): nat requires IsFullDate(s) { DigitsValue(s[8..]) }

  /** `a` is on or before `b` by the calendar: year, then month, then day. */
  predicate OnOrBefore(a: string, b: string)
    requires IsFullDate(a) && IsFullDate(b)
  {
    Year(a) < Year(b)
    || (Year(a) == Year(b) && (Month(a) < Month(b) || (Month(a) == Month(b) && Day(a) <= Day(b))))
  }

  lemma {:induction false} DigitsValueBound(s: string)
    requires IsDigits(s)
    ensures DigitsValue(s) < Pow10(|s|)
  {
    if s != [] {
      DigitsValueBound(s[..|s| - 1]);
    }
  }

  lemma DigitsValueFront(s: string)
    requires IsDigits(s) && s != []
    ensures DigitsValue(s) == DigitValue(s[0]) * Pow10(|s| - 1) + DigitsValue(s[1..])
  {
    var head, tail := [s[0]], s[1..];
    assert DigitsValue(head) == DigitValue(s[0]) by {
      assert head[..0] == [];
    }
    DigitsValueAppend(head, tail);
    assert s == head + tail;
  }

  lemma {:induction false} LexLeDigitsThen(x: string, y: string, p: string, q: string)
    requires IsDigits(x) && IsDigits(y) && |x| == |y|
    ensures LexLe(x + p, y + q)
        <==> DigitsValue(x) < DigitsValue(y) || (DigitsValue(x) == DigitsValue(y) && LexLe(p, q))
  {
    if x == [] {
      assert x + p == p && y + q == q;
    } else {
      var n := |x| - 1;
      DigitsValueFront(x);
      DigitsValueFront(y);
      DigitsValueBound(x[1..]);
      DigitsValueBound(y[1..]);
      assert (x + p)[1..] == x[1..] + p && (y + q)[1..] == y[1..] + q;
      LexLeDigitsThen(x[1..], y[1..], p, q);
      var cx, cy := DigitValue(x[0]), DigitValue(y[0]);
      if cx < cy {
        MoreSignificant(cx, cy, Pow10(n), DigitsValue(x[1..]), DigitsValue(y[1..]));
      } else if cy < cx {
        MoreSignificant(cy, cx, Pow10(n), DigitsValue(y[1..]), DigitsValue(x[1..]));
      }
    }
  }

  lemma MoreSignificant(c: nat, d: nat, p: nat, u: nat, v: nat)
    requires c < d && u < p
    ensures c * p + u < d * p + v
  {
    assert c * p + u < (c + 1) * p;
  }

  /** For full-date strings, JavaScript's string `<=` is calendar order. */
  lemma FullDateOrder(a: string, b: string)
    requires IsFullDate(a) && IsFullDate(b)
    ensures LexLe(a, b) <==> OnOrBefore(a, b)
  {
    assert a == a[..4] + a[4..] && b == b[..4] + b[4..];
    LexLeDigitsThen(a[..4], b[..4], a[4..], b[4..]);
    assert a[4..][1..] == a[5..7] + a[7..] && b[4..][1..] == b[5..7] + b[7..];
    LexLeDigitsThen(a[5..7], b[5..7], a[7..], b[7..]);
    assert a[7..][1..] == a[8..] + [] && b[7..][1..] == b[8..] + [];
    LexLeDigitsThen(a[8..], b[8..], [], []);
  }
}
