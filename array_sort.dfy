/**
 * `Array.prototype.sort(compare)` as the dashboard uses it. The sort is stable
 * (ECMAScript 2019 requires it), so it is modelled by insertion sort: an element is
 * put after the already-sorted later elements exactly when the comparator says it
 * must come after them. `le(a, b)` stands for `compare(a, b) <= 0`, "a may stay before b".
 */
module ArraySort {
  import opened JsValues

  /** The comparator is consistent: any two elements compare, and the order is transitive. */
  ghost predicate TotalPreorder<T(!new)>(le: (T, T) -> bool)
  {
    && (forall a, b :: le(a, b) || le(b, a))
    && (forall a, b, c :: le(a, b) && le(b, c) ==> le(a, c))
  }

  predicate SortedBy<T>(s: seq<T>, le: (T, T) -> bool)
  {
    forall i, j :: 0 <= i < j < |s| ==> le(s[i], s[j])
  }

  function Insert<T(!new)>(x: T, s: seq<T>, le: (T, T) -> bool): (r: seq<T>)
    requires TotalPreorder(le) && SortedBy(s, le)
    ensures SortedBy(r, le)
    ensures multiset(r) == multiset(s) + multiset{x}
  {
    if s == [] || le(x, s[0]) then [x] + s
    else
      var rest := Insert(x, s[1..], le);
      assert s == [s[0]] + s[1..];
      HeadBeforeAll(s[0], s[1..], x, rest, le);
      [s[0]] + rest
  }

  /** An element that may stay before `x` and before all of `s` may stay before any arrangement of them. */
  lemma HeadBeforeAll<T>(h: T, s: seq<T>, x: T, rest: seq<T>, le: (T, T) -> bool)
    requires le(h, x) && forall j :: 0 <= j < |s| ==> le(h, s[j])
    requires multiset(rest) == multiset(s) + multiset{x}
    ensures forall j :: 0 <= j < |rest| ==> le(h, rest[j])
  {
    forall j | 0 <= j < |rest| ensures le(h, rest[j]) {
      assert rest[j] in multiset(rest);
      if rest[j] != x {
        assert rest[j] in multiset(s);
        var k :| 0 <= k < |s| && s[k] == rest[j];
      }
    }
  }

  /** `s.sort(compare)`: the elements of `s`, ordered by the comparator, ties in input order. */
  function Sort<T(!new)>(s: seq<T>, le: (T, T) -> bool): (r: seq<T>)
    requires TotalPreorder(le)
    ensures SortedBy(r, le)
    ensures multiset(r) == multiset(s) && |r| == |s|
  {
    if s == [] then []
    else
      assert s == [s[0]] + s[1..];
      Insert(s[0], Sort(s[1..], le), le)
  }

  /** The elements of `s` that the comparator cannot tell apart from `v`, in their order. */
  function TiedWith<T(!new)>(s: seq<T>, le: (T, T) -> bool, v: T): seq<T>
  {
    Filter(s, x => le(x, v) && le(v, x))
  }

  lemma {:induction false} InsertTied<T(!new)>(x: T, s: seq<T>, le: (T, T) -> bool, v: T)
    requires TotalPreorder(le) && SortedBy(s, le)
    ensures TiedWith(Insert(x, s, le), le, v)
         == (if le(x, v) && le(v, x) then [x] else []) + TiedWith(s, le, v)
  {
    var tied := x => le(x, v) && le(v, x);
    if s == [] || le(x, s[0]) {
      FilterCons(x, s, tied);
    } else {
      InsertTied(x, s[1..], le, v);
      assert tied(x) ==> !tied(s[0]);
      FilterPastHead(x, s[0], Insert(x, s[1..], le), s[1..], tied);
      assert s == [s[0]] + s[1..];
    }
  }

  /**
   * When `x` and `y` are not both kept, keeping `x` in front of the kept part of `tail`
   * commutes with putting `y` in front of the sequence.
   */
  lemma FilterPastHead<T(!new)>(x: T, y: T, rest: seq<T>, tail: seq<T>, p: T -> bool)
    requires !(p(x) && p(y))
    requires Filter(rest, p) == (if p(x) then [x] else []) + Filter(tail, p)
    ensures Filter([y] + rest, p) == (if p(x) then [x] else []) + Filter([y] + tail, p)
  {
    FilterCons(y, rest, p);
    FilterCons(y, tail, p);
    var head := if p(y) then [y] else [];
    var kept := if p(x) then [x] else [];
    assert head == [] || kept == [];
    SwapPastEmpty(head, kept, Filter(tail, p));
  }

  /** Two prefixes of which one is empty can be put in front in either order. */
  lemma SwapPastEmpty<T>(a: seq<T>, b: seq<T>, c: seq<T>)
    requires a == [] || b == []
    ensures a + (b + c) == b + (a + c)
  {
    if a == [] {
      assert a + (b + c) == b + c;
    } else {
      assert b + (a + c) == a + c;
    }
  }

  /** The sort is stable: among elements that compare equal, the input order is kept. */
  lemma {:induction false} SortStable<T(!new)>(s: seq<T>, le: (T, T) -> bool, v: T)
    requires TotalPreorder(le)
    ensures TiedWith(Sort(s, le), le, v) == TiedWith(s, le, v)
  {
    if s != [] {
      SortStable(s[1..], le, v);
      InsertTied(s[0], Sort(s[1..], le), le, v);
    }
  }

  // ---------------------------------------------------------------------------
  // list.sort((a, b) => b.value - a.value).slice(0, k)
  // ---------------------------------------------------------------------------

  /** The comparator `(a, b) => key(b) - key(a)`: larger values first. */
  function ByValueDesc<T>(key: T -> real): (T, T) -> bool
  {
    (a: T, b: T) => key(b) - key(a) <= 0.0
  }

  lemma ByValueDescIsTotalPreorder<T(!new)>(key: T -> real)
    ensures TotalPreorder(ByValueDesc(key))
  {
  }

  /** How many entries the dashboard's ranking and both summary cards keep. */
  const TopCount := 5

  function Min(a: nat, b: nat): nat { if a <= b then a else b }

  /**
   * The `k` entries of largest value, largest first: `s.sort((a, b) => key(b) - key(a))
   * .slice(0, k)`.
   */
  function TopBy<T(!new)>(s: seq<T>, key: T -> real, k: nat): (r: seq<T>)
    ensures |r| == Min(k, |s|)
    ensures forall i, j :: 0 <= i < j < |r| ==> key(r[i]) >= key(r[j])
    ensures multiset(r) <= multiset(s)
  {
    ByValueDescIsTotalPreorder(key);
    var sorted := Sort(s, ByValueDesc(key));
    assert sorted == sorted[..Min(k, |s|)] + sorted[Min(k, |s|)..];
    sorted[..Min(k, |s|)]
  }

  /** Every entry left out ranks no higher than every entry kept. */
  lemma TopByDominates<T(!new)>(s: seq<T>, key: T -> real, k: nat)
    ensures forall x, y :: x in TopBy(s, key, k) && y in multiset(s) - multiset(TopBy(s, key, k))
              ==> key(y) <= key(x)
  {
    ByValueDescIsTotalPreorder(key);
    var sorted := Sort(s, ByValueDesc(key));
    var n := Min(k, |s|);
    var top, rest := sorted[..n], sorted[n..];
    assert sorted == top + rest;
    assert TopBy(s, key, k) == top;
    assert multiset(s) == multiset(top) + multiset(rest);
    assert multiset(s) - multiset(top) == multiset(rest);
    SortedSplit(sorted, ByValueDesc(key), n);
    forall x, y | x in top && y in multiset(rest) ensures key(y) <= key(x) {
      assert y in rest;
      assert ByValueDesc(key)(x, y);
    }
  }

  /** In a sorted sequence every element of a prefix may stay before every later one. */
  lemma SortedSplit<T>(sorted: seq<T>, le: (T, T) -> bool, n: nat)
    requires SortedBy(sorted, le) && n <= |sorted|
    ensures forall x, y :: x in sorted[..n] && y in sorted[n..] ==> le(x, y)
  {
    forall x, y | x in sorted[..n] && y in sorted[n..] ensures le(x, y) {
      var i :| 0 <= i < n && sorted[..n][i] == x;
      var j :| 0 <= j < |sorted| - n && sorted[n..][j] == y;
      assert sorted[i] == x && sorted[n + j] == y;
    }
  }

  lemma {:induction false} FilterSameOn<T(!new)>(s: seq<T>, p: T -> bool, q: T -> bool)
    requires forall x :: p(x) == q(x)
    ensures Filter(s, p) == Filter(s, q)
  {
    if s != [] { FilterSameOn(s[1..], p, q); }
  }

  /** The entries of `s` whose value is `v`, in their order in `s`. */
  function WithValue<T(!new)>(s: seq<T>, key: T -> real, v: real): seq<T>
  {
    Filter(s, x => key(x) == v)
  }

  /**
   * Ties keep input order: among entries of equal value, the kept ones are the first
   * entries of that value in the input, in input order.
   */
  lemma TopByStable<T(!new)>(s: seq<T>, key: T -> real, k: nat, v: real)
    ensures WithValue(TopBy(s, key, k), key, v) <= WithValue(s, key, v)
  {
    ByValueDescIsTotalPreorder(key);
    var sorted := Sort(s, ByValueDesc(key));
    var n := Min(k, |s|);
    assert sorted == sorted[..n] + sorted[n..];
    FilterConcat(sorted[..n], sorted[n..], x => key(x) == v);
    SortKeepsTies(s, key, v);
  }

  /** Sorting by value keeps the entries of each value in their input order. */
  lemma SortKeepsTies<T(!new)>(s: seq<T>, key: T -> real, v: real)
    requires TotalPreorder(ByValueDesc(key))
    ensures WithValue(Sort(s, ByValueDesc(key)), key, v) == WithValue(s, key, v)
  {
    var le := ByValueDesc(key);
    var sorted := Sort(s, le);
    var same := x => key(x) == v;
    if exists x :: key(x) == v {
      var w :| key(w) == v;
      SortStable(s, le, w);
      FilterSameOn(sorted, same, x => le(x, w) && le(w, x));
      FilterSameOn(s, same, x => le(x, w) && le(w, x));
    } else {
      FilterNoneOf(sorted, same);
      FilterNoneOf(s, same);
    }
  }
}
