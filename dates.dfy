/** The command-line date windows (`parse_range`) and the per-window cap check
    (`check_range`), as in lab2/main.py and main.py. */
module Dates {
  import opened Wrappers
  import opened Text

  /** A calendar date (`datetime.date`), compared lexicographically on
      (year, month, day) as Python compares dates. */
  datatype Date = Date(year: int, month: int, day: int)

  /** A closed window of dates; `parse_range` always returns one with start <= end. */
  datatype DateWindow = DateWindow(start: Date, end: Date)

  const MinPerRange: int := 50
  const MaxPerRange: int := 1000

  // ---------------------------------------------------------------------------
  // The proleptic Gregorian calendar of `datetime.date`
  // ---------------------------------------------------------------------------

  predicate IsLeap(y: int) {
    y % 4 == 0 && (y % 100 != 0 || y % 400 == 0)
  }

  function DaysInMonth(y: int, m: int): (n: int)
    requires 1 <= m <= 12
    ensures 28 <= n <= 31
    ensures n == 29 <==> m == 2 && IsLeap(y)
  {
    if m == 2 then (if IsLeap(y) then 29 else 28)
    else if m == 4 || m == 6 || m == 9 || m == 11 then 30
    else 31
  }

  /** A date `datetime.date` accepts: years 1 to 9999, the day within its month. */
  predicate ValidDate(d: Date) {
    1 <= d.year <= 9999 && 1 <= d.month <= 12 && 1 <= d.day <= DaysInMonth(d.year, d.month)
  }

  /** `a < b` on dates. */
  predicate Before(a: Date, b: Date) {
    a.year < b.year
    || (a.year == b.year && a.month < b.month)
    || (a.year == b.year && a.month == b.month && a.day < b.day)
  }

  /** `a <= b` on dates. */
  predicate NotAfter(a: Date, b: Date) {
    !Before(b, a)
  }

  // ---------------------------------------------------------------------------
  // `datetime.strptime(s, "%Y-%m-%d").date()`
  // ---------------------------------------------------------------------------

  /** `%Y` takes exactly four digits, `%m` and `%d` one or two; the values must
      then form a valid date. */
  function ParseDate(s: string): (r: Option<Date>)
    ensures r.Some? ==> ValidDate(r.value)
    ensures r.Some? ==> multiset(s)['-'] == 2
  {
    var parts := Split(s, '-');
    SplitCount(s, '-');
    if |parts| == 3 && |parts[0]| == 4 && 1 <= |parts[1]| <= 2 && 1 <= |parts[2]| <= 2
       && AllDigits(parts[0]) && AllDigits(parts[1]) && AllDigits(parts[2])
    then
      var d := Date(DigitsToNat(parts[0]), DigitsToNat(parts[1]), DigitsToNat(parts[2]));
      if ValidDate(d) then Some(d) else None
    else None
  }

  function TwoDigits(n: nat): (s: string)
    requires n < 100
    ensures |s| == 2 && AllDigits(s)
  {
    [DigitChar(n / 10), DigitChar(n % 10)]
  }

  function FourDigits(n: nat): (s: string)
    requires n < 10000
    ensures |s| == 4 && AllDigits(s)
  {
    [DigitChar(n / 1000), DigitChar(n / 100 % 10), DigitChar(n / 10 % 10), DigitChar(n % 10)]
  }

  /** `date.isoformat()`: `YYYY-MM-DD`, zero-padded. */
  function FormatDate(d: Date): string
    requires ValidDate(d)
  {
    FourDigits(d.year) + "-" + TwoDigits(d.month) + "-" + TwoDigits(d.day)
  }

  lemma DigitRoundTrip(k: nat)
    requires k < 10
    ensures DigitValue(DigitChar(k)) == k
  {
  }

  lemma TwoDigitsValue(n: nat)
    requires n < 100
    ensures DigitsToNat(TwoDigits(n)) == n
  {
    var s := TwoDigits(n);
    assert s[..1][..0] == [];
    DigitRoundTrip(n / 10);
    DigitRoundTrip(n % 10);
    assert DigitsToNat(s[..1]) == n / 10;
    assert s[..|s| - 1] == s[..1];
  }

  lemma FourDigitsValue(n: nat)
    requires n < 10000
    ensures DigitsToNat(FourDigits(n)) == n
  {
    var s := FourDigits(n);
    assert s[..3][..2][..1][..0] == [];
    assert s[..3][..2] == s[..2] && s[..2][..1] == s[..1];
    DigitRoundTrip(n / 1000);
    DigitRoundTrip(n / 100 % 10);
    DigitRoundTrip(n / 10 % 10);
    DigitRoundTrip(n % 10);
    assert DigitsToNat(s[..1]) == n / 1000;
    assert DigitsToNat(s[..2]) == n / 100;
    assert DigitsToNat(s[..3]) == n / 10;
  }

  /** Printing a date and parsing it back gives the date. */
  lemma ParseFormattedDate(d: Date)
    requires ValidDate(d)
    ensures ParseDate(FormatDate(d)) == Some(d)
  {
    var y, m, dd := FourDigits(d.year), TwoDigits(d.month), TwoDigits(d.day);
    assert [y, m, dd][1..] == [m, dd] && [m, dd][1..] == [dd];
    assert Join([m, dd], '-') == m + "-" + dd;
    assert Join([y, m, dd], '-') == FormatDate(d);
    assert '-' !in y && '-' !in m && '-' !in dd;
    JoinThenSplit([y, m, dd], '-');
    FourDigitsValue(d.year);
    TwoDigitsValue(d.month);
    TwoDigitsValue(d.day);
  }

  // ---------------------------------------------------------------------------
  // `parse_range` and `check_range`
  // ---------------------------------------------------------------------------

  /** `parse_range`: split `A:B` on the colon, parse both dates, swap them when
      the first is the later one. */
  function ParseRange(s: string): (r: Result<DateWindow>)
    ensures r == Err(MalformedRange) <==> multiset(s)[':'] != 1
    ensures r.Ok? ==> ValidDate(r.value.start) && ValidDate(r.value.end)
    ensures r.Ok? ==> NotAfter(r.value.start, r.value.end)
    ensures r.Ok? ==>
      var parts := Split(s, ':');
      |parts| == 2 &&
      var a, b := ParseDate(parts[0]), ParseDate(parts[1]);
      (a == Some(r.value.start) && b == Some(r.value.end))
      || (a == Some(r.value.end) && b == Some(r.value.start) && Before(r.value.start, r.value.end))
    ensures r == Err(InvalidDate) <==>
      var parts := Split(s, ':');
      |parts| == 2 && (ParseDate(parts[0]).None? || ParseDate(parts[1]).None?)
    ensures r.Err? ==> r.error == MalformedRange || r.error == InvalidDate
  {
    var parts := Split(s, ':');
    SplitCount(s, ':');
    if |parts| != 2 then Err(MalformedRange)
    else
      match (ParseDate(parts[0]), ParseDate(parts[1]))
      case (Some(a), Some(b)) =>
        if Before(b, a) then Ok(DateWindow(b, a)) else Ok(DateWindow(a, b))
      case _ => Err(InvalidDate)
  }

  /** The two dates of a window in the order `parse_range` returns them. */
  function Normalize(a: Date, b: Date): DateWindow {
    if Before(b, a) then DateWindow(b, a) else DateWindow(a, b)
  }

  lemma NoColonInDate(d: Date)
    requires ValidDate(d)
    ensures ':' !in FormatDate(d)
  {
    var s := FormatDate(d);
    forall i | 0 <= i < |s| ensures s[i] != ':' {
      assert IsDigit(s[i]) || s[i] == '-';
    }
  }

  lemma ParseRangeOfParts(s: string, x: string, y: string, a: Date, b: Date)
    requires Split(s, ':') == [x, y]
    requires ParseDate(x) == Some(a) && ParseDate(y) == Some(b)
    ensures ParseRange(s) == Ok(Normalize(a, b))
  {
  }

  lemma FormattedRangeParts(a: Date, b: Date)
    requires ValidDate(a) && ValidDate(b)
    ensures Split(FormatDate(a) + ":" + FormatDate(b), ':') == [FormatDate(a), FormatDate(b)]
  {
    var fa, fb := FormatDate(a), FormatDate(b);
    NoColonInDate(a);
    NoColonInDate(b);
    assert [fa, fb][1..] == [fb];
    assert Join([fa, fb], ':') == fa + ":" + fb;
    JoinThenSplit([fa, fb], ':');
  }

  lemma ParseFormattedRangeInOrder(a: Date, b: Date)
    requires ValidDate(a) && ValidDate(b)
    ensures ParseRange(FormatDate(a) + ":" + FormatDate(b)) == Ok(Normalize(a, b))
  {
    ParseFormattedDate(a);
    ParseFormattedDate(b);
    FormattedRangeParts(a, b);
    ParseRangeOfParts(FormatDate(a) + ":" + FormatDate(b), FormatDate(a), FormatDate(b), a, b);
  }

  /** `A:B` written from two valid dates parses to the window they bound,
      whichever order they come in. */
  lemma ParseFormattedRange(a: Date, b: Date)
    requires ValidDate(a) && ValidDate(b)
    ensures ParseRange(FormatDate(a) + ":" + FormatDate(b)) == Ok(Normalize(a, b))
    ensures ParseRange(FormatDate(b) + ":" + FormatDate(a)) == Ok(Normalize(a, b))
  {
    ParseFormattedRangeInOrder(a, b);
    ParseFormattedRangeInOrder(b, a);
    NormalizeSymmetric(a, b);
  }

  lemma NormalizeSymmetric(a: Date, b: Date)
    ensures Normalize(b, a) == Normalize(a, b)
  {
  }

  /** `check_range`: `None` when the cap is in [50, 1000], otherwise the `ValueError`. */
  function CheckRange(perRange: int): (r: Option<Error>)
    ensures r == None <==> MinPerRange <= perRange <= MaxPerRange
    ensures r != None ==> r == Some(PerRangeOutOfBounds)
  {
    if MinPerRange <= perRange <= MaxPerRange then None else Some(PerRangeOutOfBounds)
  }
}
