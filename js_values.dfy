/**
 * The few JavaScript values and built-ins the dashboard's data pipeline relies on:
 * `Number(text)`, `text.replace(/,/g, '')`, `text.trim()`, the relational string
 * comparison `a <= b`, and the array methods `filter`, `findIndex` and `find`.
 */
module JsValues {

  datatype Option<+T> = None | Some(value: T)

  /** A JavaScript number as far as the dashboard can produce one: a finite value or NaN. */
  datatype JsNumber = Num(value: real) | NaN

  // ---------------------------------------------------------------------------
  // Decimal text and Number(...)
  // ---------------------------------------------------------------------------

  predicate IsDigit(c: char) { '0' <= c <= '9' }

  predicate IsDigits(s: string) { forall i :: 0 <= i < |s| ==> IsDigit(s[i]) }

  function DigitValue(c: char): nat
    requires IsDigit(c)
  {
    (c as int - '0' as int) as nat
  }

  function DigitChar(d: nat): (c: char)
    requires d < 10
    ensures IsDigit(c) && DigitValue(c) == d
  {
    ('0' as int + d) as char
  }

  /** The value of a string of decimal digits, most significant digit first. */
  function DigitsValue(s: string): nat
    requires IsDigits(s)
  {
    if s == [] then 0 else DigitsValue(s[..|s| - 1]) * 10 + DigitValue(s[|s| - 1])
  }

  /**
   * `Number(s)` for the texts the data files hold: the empty string reads as 0, decimal
   * text (digits with at most one decimal point, at least one digit, and an optional
   * leading minus sign) reads as its value, and every other text reads as NaN.
   */
  function Number(s: string): JsNumber
  {
    if s == [] then Num(0.0)
    else if s[0] == '-' then
      match DecimalValue(s[1..])
      case Some(v) => Num(-v)
      case None => NaN
    else
      match DecimalValue(s)
      case Some(v) => Num(v)
      case None => NaN
  }

  /**
   * The value of unsigned decimal text: digits, optionally split by one decimal point,
   * with at least one digit (`"12"`, `"1.5"`, `".5"`, `"5."`); nothing for any other text.
   */
  function DecimalValue(s: string): (v: Option<real>)
    ensures IsDigits(s) && s != [] ==> v == Some(DigitsValue(s) as real)
    ensures v.Some? ==> v.value >= 0.0
  {
    if s == [] then None
    else if IsDigits(s) then Some(DigitsValue(s) as real)
    else
      var k := FindIndex(s, IsDecimalPoint);
      if k == -1 || |s| == 1 then None
      else
        var whole, fraction := s[..k], s[k + 1..];
        if IsDigits(whole) && IsDigits(fraction)
        then Some(FixedValue(whole, fraction))
        else None
  }

  /** The value of `whole.fraction`. */
  function FixedValue(whole: string, fraction: string): real
    requires IsDigits(whole) && IsDigits(fraction)
  {
    DigitsValue(whole) as real + DigitsValue(fraction) as real / Pow10(|fraction|) as real
  }

  predicate IsDecimalPoint(c: char) { c == '.' }

  /** Digits, a decimal point and more digits read as the whole part plus the fraction. */
  lemma NumberOfDecimalText(whole: string, fraction: string)
    requires IsDigits(whole) && IsDigits(fraction) && whole + fraction != []
    ensures Number(whole + "." + fraction) == Num(FixedValue(whole, fraction))
  {
    var s := whole + "." + fraction;
    assert s[|whole|] == '.';
    assert !IsDigits(s) by { assert !IsDigit(s[|whole|]); }
    assert s[0] != '-' by { if whole != [] { assert IsDigit(s[0]); } }
    var k := FindIndex(s, IsDecimalPoint);
    assert k == |whole|;
    assert s[..k] == whole && s[k + 1..] == fraction;
    assert |s| > 1;
  }

  /** A value with a fractional part, as an average or an index in a data file would be. */
  lemma NumberOfDecimalExample()
    ensures Number("1234.5") == Num(1234.5)
  {
    NumberOfDecimalText("1234", "5");
    assert "1234" + "." + "5" == "1234.5";
    FixedValueExample();
  }

  lemma FixedValueExample()
    ensures FixedValue("1234", "5") == 1234.5
  {
    assert DigitsValue("1234") == 1234 by {
      assert "1234"[..3] == "123" && "123"[..2] == "12" && "12"[..1] == "1";
    }
    assert DigitsValue("5") == 5;
    assert Pow10(1) == 10;
  }

  /** Text that is not a number in decimal notation reads as NaN. */
  lemma NumberOfNonDecimals()
    ensures Number(".") == NaN && Number("-") == NaN && Number("1.2.3") == NaN
  {
    assert FindIndex("1.2.3", IsDecimalPoint) == 1;
    assert !IsDigits("2.3") by { assert !IsDigit("2.3"[1]); }
    assert !IsDigits("1.2.3") by { assert !IsDigit("1.2.3"[1]); }
  }

  /** The decimal rendering of a natural number, as `String(n)` gives it. */
  function NatDigits(n: nat): (s: string)
    ensures IsDigits(s) && s != []
  {
    if n < 10 then [DigitChar(n)] else NatDigits(n / 10) + [DigitChar(n % 10)]
  }

  /** The decimal rendering of an integer, as `String(n)` gives it. */
  function IntText(n: int): string
  {
    if n < 0 then "-" + NatDigits(-n) else NatDigits(n)
  }

  lemma {:induction false} DigitsValueOfNatDigits(n: nat)
    ensures DigitsValue(NatDigits(n)) == n
  {
    if n >= 10 {
      var s := NatDigits(n);
      assert s[..|s| - 1] == NatDigits(n / 10);
      DigitsValueOfNatDigits(n / 10);
    }
  }

  /** `Number` reads back every integer from its decimal rendering. */
  lemma NumberOfIntText(n: int)
    ensures Number(IntText(n)) == Num(n as real)
  {
    if n < 0 {
      var s := IntText(n);
      assert s[1..] == NatDigits(-n);
      DigitsValueOfNatDigits(-n);
    } else {
      DigitsValueOfNatDigits(n);
    }
  }

  // ---------------------------------------------------------------------------
  // text.replace(/,/g, '')
  // ---------------------------------------------------------------------------

  predicate NotComma(c: char) { c != ',' }

  /** The text with every comma removed: the other characters, in their order. */
  function StripCommas(s: string): (r: string)
    ensures r == Filter(s, NotComma)
    ensures ',' !in r
    ensures ',' !in s ==> r == s
  {
    if s == [] then [] else (if s[0] == ',' then [] else [s[0]]) + StripCommas(s[1..])
  }

  lemma StripCommasConcat(a: string, b: string)
    ensures StripCommas(a + b) == StripCommas(a) + StripCommas(b)
  {
    FilterConcat(a, b, NotComma);
  }

  /** A natural number grouped in thousands with commas, as the data files write counts. */
  function Grouped(n: nat): string
  {
    if n < 1000 then NatDigits(n) else Grouped(n / 1000) + "," + ThreeDigits(n % 1000)
  }

  function ThreeDigits(m: nat): (s: string)
    requires m < 1000
    ensures |s| == 3 && IsDigits(s)
  {
    [DigitChar(m / 100), DigitChar(m % 100 / 10), DigitChar(m % 10)]
  }

  lemma ThreeDigitsValue(m: nat)
    requires m < 1000
    ensures DigitsValue(ThreeDigits(m)) == m
  {
    var s := ThreeDigits(m);
    assert s[..2][..1] == [DigitChar(m / 100)];
    assert DigitsValue(s[..2][..1]) == m / 100;
    assert DigitsValue(s[..2]) == (m / 100) * 10 + m % 100 / 10;
  }

  lemma ShiftDigit(x: nat, p: nat, y: nat, d: nat)
    ensures (x * p + y) * 10 + d == x * (10 * p) + (y * 10 + d)
  {
  }

  lemma {:induction false} DigitsValueAppend(a: string, b: string)
    requires IsDigits(a) && IsDigits(b)
    ensures IsDigits(a + b)
    ensures DigitsValue(a + b) == DigitsValue(a) * Pow10(|b|) + DigitsValue(b)
    decreases |b|
  {
    if b != [] {
      var ab := a + b;
      var init := b[..|b| - 1];
      assert ab[..|ab| - 1] == a + init;
      DigitsValueAppend(a, init);
      var d := DigitValue(b[|b| - 1]);
      assert DigitsValue(ab) == DigitsValue(a + init) * 10 + d;
      assert DigitsValue(b) == DigitsValue(init) * 10 + d;
      ShiftDigit(DigitsValue(a), Pow10(|init|), DigitsValue(init), d);
    } else {
      assert a + b == a;
    }
  }

  function Pow10(k: nat): (p: nat)
    ensures p >= 1
  {
    if k == 0 then 1 else 10 * Pow10(k - 1)
  }

  lemma StripGroupedStep(n: nat)
    requires n >= 1000
    ensures StripCommas(Grouped(n)) == StripCommas(Grouped(n / 1000)) + ThreeDigits(n % 1000)
  {
    StripJoined(Grouped(n / 1000), ThreeDigits(n % 1000));
  }

  /** The comma between two groups goes, and a group of digits stays as it is. */
  lemma StripJoined(head: string, tail: string)
    requires IsDigits(tail)
    ensures StripCommas(head + "," + tail) == StripCommas(head) + tail
  {
    var left := StripCommas(head + ",");
    StripCommasConcat(head + ",", tail);
    StripCommasConcat(head, ",");
    StripCommasOfDigits(tail);
    assert left == StripCommas(head) by {
      assert StripCommas(",") == [];
    }
  }

  lemma StripCommasOfDigits(s: string)
    requires IsDigits(s)
    ensures StripCommas(s) == s
  {
    assert ',' !in s;
  }

  lemma SplitThousands(n: nat)
    ensures (n / 1000) * 1000 + n % 1000 == n
  {
  }

  /** Removing the commas of a grouped count leaves digits whose value is the count. */
  lemma {:induction false} StripGroupedDigits(n: nat)
    ensures IsDigits(StripCommas(Grouped(n))) && StripCommas(Grouped(n)) != []
    ensures DigitsValue(StripCommas(Grouped(n))) == n
  {
    if n < 1000 {
      DigitsValueOfNatDigits(n);
    } else {
      StripGroupedStep(n);
      StripGroupedDigits(n / 1000);
      var digits := StripCommas(Grouped(n / 1000));
      var tail := ThreeDigits(n % 1000);
      DigitsValueAppend(digits, tail);
      ThreeDigitsValue(n % 1000);
      assert Pow10(3) == 1000;
      SplitThousands(n);
    }
  }

  /** The dashboard's coercion reads a comma-grouped count back as that count. */
  lemma NumberOfGrouped(n: nat)
    ensures Number(StripCommas(Grouped(n))) == Num(n as real)
  {
    StripGroupedDigits(n);
  }

  // ---------------------------------------------------------------------------
  // text.trim()
  // ---------------------------------------------------------------------------

  /** The characters `String.prototype.trim` removes: white space and line terminators. */
  predicate IsJsSpace(c: char)
  {
    c == '\t' || c == '\n' || c == '\U{000B}' || c == '\U{000C}' || c == '\r' || c == ' '
    || c == '\U{00A0}' || c == '\U{1680}' || ('\U{2000}' <= c <= '\U{200A}')
    || c == '\U{2028}' || c == '\U{2029}' || c == '\U{202F}' || c == '\U{205F}'
    || c == '\U{3000}' || c == '\U{FEFF}'
  }

  predicate IsTrimmed(s: string)
  {
    s == [] || (!IsJsSpace(s[0]) && !IsJsSpace(s[|s| - 1]))
  }

  function TrimStart(s: string): (r: string)
    ensures |r| <= |s| && r == s[|s| - |r|..]
    ensures forall i :: 0 <= i < |s| - |r| ==> IsJsSpace(s[i])
    ensures r == [] || !IsJsSpace(r[0])
  {
    if s != [] && IsJsSpace(s[0]) then TrimStart(s[1..]) else s
  }

  function TrimEnd(s: string): (r: string)
    ensures |r| <= |s| && r == s[..|r|]
    ensures forall i :: |r| <= i < |s| ==> IsJsSpace(s[i])
    ensures r == [] || !IsJsSpace(r[|r| - 1])
  {
    if s != [] && IsJsSpace(s[|s| - 1]) then TrimEnd(s[..|s| - 1]) else s
  }

  /**
   * `s.trim()`: the text between the leading and the trailing white space. The result
   * neither starts nor ends with white space, and a text that already does not is kept.
   */
  function Trim(s: string): (r: string)
    ensures IsTrimmed(r)
    ensures IsTrimmed(s) ==> r == s
    ensures exists i :: TrimmedAt(s, i, r)
  {
    var t := TrimStart(s);
    TrimmedBetween(s, t, TrimEnd(t));
    TrimEnd(t)
  }

  /** Trimming the start and then the end leaves a part of `s` with only white space around it. */
  lemma TrimmedBetween(s: string, t: string, r: string)
    requires |t| <= |s| && t == s[|s| - |t|..]
    requires forall k :: 0 <= k < |s| - |t| ==> IsJsSpace(s[k])
    requires |r| <= |t| && r == t[..|r|]
    requires forall k :: |r| <= k < |t| ==> IsJsSpace(t[k])
    ensures TrimmedAt(s, |s| - |t|, r)
  {
    var i := |s| - |t|;
    assert r == s[i..i + |r|];
    forall k | i + |r| <= k < |s| ensures IsJsSpace(s[k]) {
      assert s[k] == t[k - i];
    }
  }

  /** `r` is `s` less the `i` white-space characters before it and the white space after it. */
  predicate TrimmedAt(s: string, i: nat, r: string)
  {
    && i + |r| <= |s| && r == s[i..i + |r|]
    && (forall k :: 0 <= k < i ==> IsJsSpace(s[k]))
    && (forall k :: i + |r| <= k < |s| ==> IsJsSpace(s[k]))
  }

  lemma TrimIdempotent(s: string)
    ensures Trim(Trim(s)) == Trim(s)
  {
  }

  // ---------------------------------------------------------------------------
  // The relational comparison a <= b on strings
  // ---------------------------------------------------------------------------

  /**
   * JavaScript's `a <= b` on two strings: lexicographic order on their characters, a
   * proper prefix coming first.
   */
  predicate LexLe(a: string, b: string)
  {
    a == [] || (b != [] && (a[0] < b[0] || (a[0] == b[0] && LexLe(a[1..], b[1..]))))
  }

  lemma {:induction false} LexLeReflexive(a: string)
    ensures LexLe(a, a)
  {
    if a != [] { LexLeReflexive(a[1..]); }
  }

  lemma {:induction false} LexLeTotal(a: string, b: string)
    ensures LexLe(a, b) || LexLe(b, a)
  {
    if a != [] && b != [] && a[0] == b[0] { LexLeTotal(a[1..], b[1..]); }
  }

  lemma {:induction false} LexLeAntisymmetric(a: string, b: string)
    requires LexLe(a, b) && LexLe(b, a)
    ensures a == b
  {
    if a != [] && b != [] {
      LexLeAntisymmetric(a[1..], b[1..]);
      assert a == [a[0]] + a[1..];
      assert b == [b[0]] + b[1..];
    }
  }

  lemma {:induction false} LexLeTransitive(a: string, b: string, c: string)
    requires LexLe(a, b) && LexLe(b, c)
    ensures LexLe(a, c)
  {
    if a != [] && b != [] && c != [] && a[0] == b[0] && b[0] == c[0] {
      LexLeTransitive(a[1..], b[1..], c[1..]);
    }
  }

  // ---------------------------------------------------------------------------
  // Array.prototype.filter, findIndex and find
  // ---------------------------------------------------------------------------

  /** `s.filter(p)`: the elements of `s` that satisfy `p`, in their order in `s`. */
  function Filter<T(!new)>(s: seq<T>, p: T -> bool): (r: seq<T>)
    ensures |r| <= |s|
    ensures forall x :: x in r <==> x in s && p(x)
  {
    if s == [] then [] else (if p(s[0]) then [s[0]] else []) + Filter(s[1..], p)
  }

  /** Filtering keeps order: it distributes over concatenation. */
  lemma {:induction false} FilterConcat<T(!new)>(a: seq<T>, b: seq<T>, p: T -> bool)
    ensures Filter(a + b, p) == Filter(a, p) + Filter(b, p)
  {
    if a != [] {
      var rest := a[1..];
      assert a + b == [a[0]] + (rest + b);
      FilterCons(a[0], rest + b, p);
      FilterCons(a[0], rest, p);
      FilterConcat(rest, b, p);
    } else {
      assert a + b == b;
    }
  }

  /** Filtering a sequence that starts with `x` looks at `x` first. */
  lemma FilterCons<T(!new)>(x: T, s: seq<T>, p: T -> bool)
    ensures Filter([x] + s, p) == (if p(x) then [x] else []) + Filter(s, p)
  {
    assert ([x] + s)[1..] == s;
  }

  /** Filtering by a weaker condition first changes nothing; with `q == p` this is idempotence. */
  lemma {:induction false} FilterFilter<T(!new)>(s: seq<T>, p: T -> bool, q: T -> bool)
    requires forall x :: q(x) ==> p(x)
    ensures Filter(Filter(s, p), q) == Filter(s, q)
  {
    if s != [] {
      FilterFilter(s[1..], p, q);
      FilterConcat(if p(s[0]) then [s[0]] else [], Filter(s[1..], p), q);
    }
  }

  /** No element occurs twice. */
  predicate Distinct<T(==)>(s: seq<T>)
  {
    forall i, j :: 0 <= i < j < |s| ==> s[i] != s[j]
  }

  /** A filter keeps every occurrence of what it keeps, and none of the rest. */
  lemma {:induction false} FilterMultiset<T(!new)>(s: seq<T>, p: T -> bool, x: T)
    ensures multiset(Filter(s, p))[x] == if p(x) then multiset(s)[x] else 0
  {
    if s != [] {
      FilterMultiset(s[1..], p, x);
      assert s == [s[0]] + s[1..];
    }
  }

  /** A filter that every element passes keeps the sequence as it is. */
  lemma {:induction false} FilterAll<T(!new)>(s: seq<T>, p: T -> bool)
    requires forall i :: 0 <= i < |s| ==> p(s[i])
    ensures Filter(s, p) == s
  {
    if s != [] {
      FilterAll(s[1..], p);
      assert s == [s[0]] + s[1..];
    }
  }

  /** A filter that no element passes keeps nothing. */
  lemma {:induction false} FilterNoneOf<T(!new)>(s: seq<T>, p: T -> bool)
    requires forall i :: 0 <= i < |s| ==> !p(s[i])
    ensures Filter(s, p) == []
  {
    if s != [] {
      FilterNoneOf(s[1..], p);
    }
  }

  /** The last element a filter keeps is the last element of `s` that satisfies `p`. */
  lemma {:induction false} FilterLast<T(!new)>(s: seq<T>, p: T -> bool)
    requires Filter(s, p) != []
    ensures exists k :: 0 <= k < |s| && s[k] == Filter(s, p)[|Filter(s, p)| - 1] && p(s[k])
              && forall j :: k < j < |s| ==> !p(s[j])
  {
    var rest := Filter(s[1..], p);
    if rest != [] {
      FilterLast(s[1..], p);
      var k :| 0 <= k < |s[1..]| && s[1..][k] == rest[|rest| - 1] && p(s[1..][k])
               && forall j :: k < j < |s[1..]| ==> !p(s[1..][j]);
      assert s[k + 1] == Filter(s, p)[|Filter(s, p)| - 1];
      forall j | k + 1 < j < |s| ensures !p(s[j]) {
        assert s[j] == s[1..][j - 1];
      }
    } else {
      assert p(s[0]);
      forall j | 0 < j < |s| ensures !p(s[j]) {
        assert s[j] in s[1..];
      }
    }
  }

  /** `s.findIndex(p)`: the first index whose element satisfies `p`, or -1. */
  function FindIndex<T>(s: seq<T>, p: T -> bool): (r: int)
    ensures -1 <= r < |s|
    ensures r == -1 ==> forall i :: 0 <= i < |s| ==> !p(s[i])
    ensures 0 <= r ==> p(s[r]) && forall i :: 0 <= i < r ==> !p(s[i])
  {
    if s == [] then -1
    else if p(s[0]) then 0
    else
      var k := FindIndex(s[1..], p);
      if k == -1 then -1 else k + 1
  }

  /** `s.find(p)`: the first element that satisfies `p`, or undefined. */
  function Find<T>(s: seq<T>, p: T -> bool): (r: Option<T>)
    ensures r.None? <==> forall i :: 0 <= i < |s| ==> !p(s[i])
    ensures r.Some? ==> exists i :: 0 <= i < |s| && s[i] == r.value && p(s[i]) && forall j :: 0 <= j < i ==> !p(s[j])
  {
    var i := FindIndex(s, p);
    if i == -1 then None else Some(s[i])
  }
}
