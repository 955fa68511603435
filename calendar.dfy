/** The calendar side of `make_rss`: `datetime.strptime(f'{month} {day}
    {year}', '%B %d %Y')` on the captured groups, and the two `strftime`
    renderings of a parsed date. Month names are the English ones. */
module Calendar {
  import opened Text
  import opened Patterns

  /** A proleptic Gregorian date; compared field by field, as Python
      compares `datetime` values. */
  datatype Date = Date(year: int, month: int, day: int)

  /** Lower-cased full month names, which `%B` accepts in any case. */
  const MonthKeys: seq<string> := ["january", "february", "march", "april",
    "may", "june", "july", "august", "september", "october", "november",
    "december"]

  /** `%b` output. */
  const MonthAbbrevs: seq<string> := ["Jan", "Feb", "Mar", "Apr", "May",
    "Jun", "Jul", "Aug", "Sep", "Oct", "Nov", "Dec"]

  /** `%a` output, indexed by `date.weekday()` (Monday is 0). */
  const WeekdayAbbrevs: seq<string> := ["Mon", "Tue", "Wed", "Thu", "Fri",
    "Sat", "Sun"]

  predicate IsLeap(y: int)
  {
    y % 4 == 0 && (y % 100 != 0 || y % 400 == 0)
  }

  function DaysInMonth(y: int, m: int): (n: int)
    requires 1 <= m <= 12
    ensures 28 <= n <= 31
    ensures n == 29 <==> m == 2 && IsLeap(y)
  {
    if m == 2 then (if IsLeap(y) then 29 else 28)
    else if m == 4 || m == 6 || m == 9 || m == 11 then 30
    else 31
  }

  /** What `datetime` accepts: years 1 to 9999, months 1 to 12, and a day
      within the month's length for that year. */
  predicate ValidDate(d: Date)
  {
    && 1 <= d.year <= 9999
    && 1 <= d.month <= 12
    && 1 <= d.day <= DaysInMonth(d.year, d.month)
  }

  /** Chronological order. */
  predicate Before(a: Date, b: Date)
  {
    a.year < b.year
    || (a.year == b.year && (a.month < b.month || (a.month == b.month && a.day < b.day)))
  }

  function DigitValue(c: char): nat
    requires IsDigit(c)
  {
    c as int - '0' as int
  }

  /** `int(s)` for a string of decimal digits. */
  function DecimalValue(s: string): nat
    requires AllDigits(s)
  {
    if s == [] then 0 else DecimalValue(s[..|s| - 1]) * 10 + DigitValue(s[|s| - 1])
  }

  /** The position of `x` in `xs`, if any. */
  function IndexOf(xs: seq<string>, x: string): (r: Option<nat>)
    ensures r.Some? ==> r.value < |xs| && xs[r.value] == x && x !in xs[..r.value]
    ensures r.None? ==> x !in xs
  {
    if xs == [] then None
    else if xs[0] == x then Some(0)
    else match IndexOf(xs[1..], x)
      case None => None
      case Some(i) =>
        assert xs[..i + 1] == [xs[0]] + xs[1..][..i];
        Some(i + 1)
  }

  /** `%B` in `strptime`: the month number of a full English month name,
      in any letter case. */
  function MonthNumber(name: string): (r: Option<int>)
    ensures r.Some? ==> 1 <= r.value <= 12 && MonthKeys[r.value - 1] == Lower(name)
    ensures r.None? ==> Lower(name) !in MonthKeys
  {
    match IndexOf(MonthKeys, Lower(name))
    case None => None
    case Some(i) => Some(i + 1)
  }

  /** `datetime.strptime(f'{month} {day} {year}', '%B %d %Y')`, on groups
      the primary pattern captured. It succeeds exactly when the month is a
      full month name (any case) and the numbers read from the day and year
      form a valid date with that month; failure stands for the exception
      `make_rss` catches. */
  function ParseDate(p: DateParts): (r: Option<Date>)
    requires WellFormed(p)
    ensures r.Some? ==> (&& ValidDate(r.value)
                         && MonthKeys[r.value.month - 1] == Lower(p.month)
                         && r.value.day == DecimalValue(p.day)
                         && r.value.year == DecimalValue(p.year))
    ensures r.None? ==> forall m :: 1 <= m <= 12 && MonthKeys[m - 1] == Lower(p.month) ==>
      !ValidDate(Date(DecimalValue(p.year), m, DecimalValue(p.day)))
  {
    match MonthNumber(p.month)
    case None => None
    case Some(m) =>
      var year, day := DecimalValue(p.year), DecimalValue(p.day);
      YearBound(p.year);
      MonthKeysDistinct();
      if 1 <= year && 1 <= day <= DaysInMonth(year, m) then Some(Date(year, m, day))
      else None
  }

  function Pow10(n: nat): (r: nat)
    ensures r >= 1
  {
    if n == 0 then 1 else 10 * Pow10(n - 1)
  }

  /** `n` digits never read as `10^n` or more. */
  lemma {:induction false} DecimalBound(s: string)
    requires AllDigits(s)
    ensures DecimalValue(s) < Pow10(|s|)
  {
    if s != [] {
      DecimalBound(s[..|s| - 1]);
    }
  }

  lemma YearBound(s: string)
    requires |s| == 4 && AllDigits(s)
    ensures DecimalValue(s) <= 9999
  {
    DecimalBound(s);
    assert Pow10(4) == 10000;
  }

  function Digit(n: nat): (c: char)
    requires n < 10
    ensures IsDigit(c) && DigitValue(c) == n
  {
    ('0' as int + n) as char
  }

  /** Zero-padded two-digit rendering (`%d`). */
  function Pad2(n: nat): (s: string)
    requires n < 100
    ensures |s| == 2 && AllDigits(s) && DecimalValue(s) == n
  {
    var s := [Digit(n / 10), Digit(n % 10)];
    assert s[..1][..0] == [];
    assert DecimalValue(s[..1]) == n / 10;
    s
  }

  /** Zero-padded four-digit rendering (`%Y`). */
  function Pad4(n: nat): (s: string)
    requires n < 10000
    ensures |s| == 4 && AllDigits(s) && DecimalValue(s) == n
  {
    var s := Pad2(n / 100) + Pad2(n % 100);
    assert s[..3] == Pad2(n / 100) + Pad2(n % 100)[..1];
    assert s[..3][..2] == Pad2(n / 100);
    s
  }

  /** Parsing the groups of a date's own `%B`, `%d` and `%Y` renderings
      gives the date back. */
  lemma ParseRendered(d: Date)
    requires ValidDate(d)
    ensures WellFormed(DateParts(MonthName(d.month), Pad2(d.day), Pad4(d.year)))
    ensures ParseDate(DateParts(MonthName(d.month), Pad2(d.day), Pad4(d.year))) == Some(d)
  {
    var p := DateParts(MonthName(d.month), Pad2(d.day), Pad4(d.year));
    MonthNumberOf(p.month, d.month);
  }

  /** There is no 30 February: `strptime` rejects the groups of
      `February_30_2015`. */
  lemma NoFebruaryThirtieth()
    ensures WellFormed(DateParts("February", "30", "2015"))
    ensures ParseDate(DateParts("February", "30", "2015")).None?
  {
    var p := DateParts("February", "30", "2015");
    assert Lower(p.month) == MonthKeys[1] by {
      assert forall i :: 0 <= i < |p.month| ==> Lower(p.month)[i] == MonthKeys[1][i];
    }
    MonthNumberOf(p.month, 2);
    assert p.day[..1] == "3";
    assert DecimalValue(p.day) == 30;
  }

  /** A name whose lower-case form is month `m`'s key is month `m`. */
  lemma MonthNumberOf(name: string, m: int)
    requires 1 <= m <= 12 && MonthKeys[m - 1] == Lower(name)
    ensures MonthNumber(name) == Some(m)
  {
    MonthKeysDistinct();
  }

  /** No two months share a name. */
  lemma MonthKeysDistinct()
    ensures forall i, j :: 0 <= i < j < 12 ==> MonthKeys[i] != MonthKeys[j]
  {
  }

  /** Every month name is a non-empty run of lower-case letters. */
  lemma MonthKeysLower()
    ensures forall i :: 0 <= i < 12 ==> |MonthKeys[i]| > 0 && AllLower(MonthKeys[i])
  {
  }

  predicate AllLower(s: string)
  {
    forall i :: 0 <= i < |s| ==> 'a' <= s[i] <= 'z'
  }

  function UpperChar(c: char): char
  {
    if 'a' <= c <= 'z' then (c as int - 32) as char else c
  }

  /** `%B` in `strftime`: the month's name with an upper-case initial, which
      `%B` in `strptime` reads back as the same month. */
  function MonthName(m: int): (s: string)
    requires 1 <= m <= 12
    ensures |s| > 0 && AllLetters(s)
    ensures Lower(s) == MonthKeys[m - 1]
  {
    var k := MonthKeys[m - 1];
    MonthKeysLower();
    var s := [UpperChar(k[0])] + k[1..];
    assert Lower(s)[0] == k[0];
    assert forall i :: 1 <= i < |s| ==> Lower(s)[i] == k[i];
    s
  }

  /** Days from 0001-01-01 to the first day of year `y`. */
  function DaysBeforeYear(y: int): int
    requires y >= 1
  {
    var n := y - 1;
    365 * n + n / 4 - n / 100 + n / 400
  }

  /** Days from the first of the year to the first of month `m`. */
  function DaysBeforeMonth(y: int, m: int): int
    requires 1 <= m <= 12
  {
    [0, 31, 59, 90, 120, 151, 181, 212, 243, 273, 304, 334][m - 1]
      + (if m > 2 && IsLeap(y) then 1 else 0)
  }

  /** `date.toordinal()`: 0001-01-01 is day 1. */
  function Ordinal(d: Date): int
    requires ValidDate(d)
  {
    DaysBeforeYear(d.year) + DaysBeforeMonth(d.year, d.month) + d.day
  }

  /** `date.weekday()`: Monday is 0, and 0001-01-01 was a Monday. */
  function Weekday(d: Date): (w: nat)
    requires ValidDate(d)
    ensures w < 7
  {
    (Ordinal(d) + 6) % 7
  }

  /** The weekday count is anchored: 0001-01-01 was a Monday, and so was
      2024-01-01; 2015-06-09 was a Tuesday. */
  lemma WeekdayAnchors()
    ensures Weekday(Date(1, 1, 1)) == 0
    ensures Weekday(Date(2015, 6, 9)) == 1
    ensures Weekday(Date(2024, 1, 1)) == 0
  {
  }

  /** The date after `d`, rolling over to the next month and year. */
  function NextDay(d: Date): (r: Date)
    requires ValidDate(d) && (d.year < 9999 || d.month < 12 || d.day < DaysInMonth(d.year, d.month))
    ensures ValidDate(r) && Before(d, r)
  {
    if d.day < DaysInMonth(d.year, d.month) then Date(d.year, d.month, d.day + 1)
    else if d.month < 12 then Date(d.year, d.month + 1, 1)
    else Date(d.year + 1, 1, 1)
  }

  /** A month's days end where the next month's begin. */
  lemma MonthSpan(y: int, m: int)
    requires 1 <= m < 12
    ensures DaysBeforeMonth(y, m + 1) == DaysBeforeMonth(y, m) + DaysInMonth(y, m)
  {
  }

  /** A year has 365 days, 366 when it is a leap year. */
  lemma YearSpan(y: int)
    requires y >= 1
    ensures DaysBeforeYear(y + 1) == DaysBeforeYear(y) + 365 + (if IsLeap(y) then 1 else 0)
  {
    var n := y - 1;
    var d4, d100, d400 := y / 4 - n / 4, y / 100 - n / 100, y / 400 - n / 400;
    CrossesFour(y);
    CrossesHundred(y);
    CrossesFourHundred(y);
    LeapCount(y);
    assert DaysBeforeYear(y + 1) - DaysBeforeYear(y) == 365 + d4 - d100 + d400;
  }

  /** The leap rule as a count: one for a multiple of 4, minus one for a
      multiple of 100, plus one for a multiple of 400. */
  lemma LeapCount(y: int)
    ensures (if y % 4 == 0 then 1 else 0) - (if y % 100 == 0 then 1 else 0) + (if y % 400 == 0 then 1 else 0)
      == if IsLeap(y) then 1 else 0
  {
    if y % 100 == 0 {
      var q := y / 100;
      assert y == 4 * (25 * q);
    }
    if y % 400 == 0 {
      var q := y / 400;
      assert y == 100 * (4 * q);
    }
  }

  /** Counting from year 1 up to `y`, a multiple of 4, 100 or 400 is passed
      exactly when `y` is one. */
  lemma CrossesFour(y: int)
    requires y >= 1
    ensures y / 4 - (y - 1) / 4 == if y % 4 == 0 then 1 else 0
  {
  }

  lemma CrossesHundred(y: int)
    requires y >= 1
    ensures y / 100 - (y - 1) / 100 == if y % 100 == 0 then 1 else 0
  {
  }

  lemma CrossesFourHundred(y: int)
    requires y >= 1
    ensures y / 400 - (y - 1) / 400 == if y % 400 == 0 then 1 else 0
  {
  }

  /** Day `d` of the year is at most the year's last day. */
  lemma DayOfYearBound(d: Date)
    requires ValidDate(d)
    ensures DaysBeforeMonth(d.year, d.month) + d.day <= 365 + (if IsLeap(d.year) then 1 else 0)
  {
  }

  lemma {:induction false} YearsApart(a: int, b: int)
    requires 1 <= a < b
    ensures DaysBeforeYear(a) + 365 + (if IsLeap(a) then 1 else 0) <= DaysBeforeYear(b)
    decreases b - a
  {
    YearSpan(a);
    if a + 1 < b {
      YearsApart(a + 1, b);
      YearSpan(a + 1);
    }
  }

  /** The day count agrees with chronological order, so it numbers the
      valid dates one after another. */
  lemma OrdinalOrder(a: Date, b: Date)
    requires ValidDate(a) && ValidDate(b)
    ensures Before(a, b) <==> Ordinal(a) < Ordinal(b)
    ensures a == b <==> Ordinal(a) == Ordinal(b)
  {
    if a.year < b.year {
      OrdinalYearOrder(a, b);
    } else if b.year < a.year {
      OrdinalYearOrder(b, a);
    } else if a.month < b.month {
      OrdinalMonthOrder(a, b);
    } else if b.month < a.month {
      OrdinalMonthOrder(b, a);
    }
  }

  lemma OrdinalYearOrder(a: Date, b: Date)
    requires ValidDate(a) && ValidDate(b) && a.year < b.year
    ensures Ordinal(a) < Ordinal(b)
  {
    DayOfYearBound(a);
    YearsApart(a.year, b.year);
  }

  lemma {:induction false} OrdinalMonthOrder(a: Date, b: Date)
    requires ValidDate(a) && ValidDate(b) && a.year == b.year && a.month < b.month
    ensures Ordinal(a) < Ordinal(b)
    decreases b.month - a.month
  {
    MonthSpan(a.year, a.month);
    if a.month + 1 < b.month {
      OrdinalMonthOrder(Date(a.year, a.month + 1, 1), b);
    }
  }

  /** The next day's count is one more. */
  lemma NextDayOrdinal(d: Date)
    requires ValidDate(d) && (d.year < 9999 || d.month < 12 || d.day < DaysInMonth(d.year, d.month))
    ensures Ordinal(NextDay(d)) == Ordinal(d) + 1
  {
    if d.day == DaysInMonth(d.year, d.month) {
      if d.month < 12 {
        MonthSpan(d.year, d.month);
      } else {
        YearSpan(d.year);
      }
    }
  }

  /** So the next day's weekday is the next one, Sunday wrapping to Monday. */
  lemma NextDayWeekday(d: Date)
    requires ValidDate(d) && (d.year < 9999 || d.month < 12 || d.day < DaysInMonth(d.year, d.month))
    ensures Weekday(NextDay(d)) == (Weekday(d) + 1) % 7
  {
    NextDayOrdinal(d);
    ModSevenStep(Ordinal(d) + 6);
  }

  lemma ModSevenStep(x: int)
    ensures (x + 1) % 7 == (x % 7 + 1) % 7
  {
    assert x == 7 * (x / 7) + x % 7;
    assert x + 1 == 7 * (x / 7) + (x % 7 + 1);
  }

  /** `strftime('%a, %d %b %Y 08:00:00 GMT')`: the RSS publication date. */
  function PubDateText(d: Date): (s: string)
    requires ValidDate(d)
    ensures |s| == 29 && EndsWith(s, " 08:00:00 GMT")
  {
    WeekdayAbbrevs[Weekday(d)] + ", " + Pad2(d.day) + " " + MonthAbbrevs[d.month - 1]
      + " " + Pad4(d.year) + " 08:00:00 GMT"
  }

  /** `strftime('%B %d, %Y')`: the date part of an episode title. */
  function TitleDateText(d: Date): (s: string)
    requires ValidDate(d)
    ensures var n := |MonthName(d.month)|;
      && |s| == n + 9 && s[n] == ' ' && s[n + 3..n + 5] == ", "
      && WellFormed(DateParts(s[..n], s[n + 1..n + 3], s[n + 5..]))
      && ParseDate(DateParts(s[..n], s[n + 1..n + 3], s[n + 5..])) == Some(d)
  {
    TitleFields(MonthName(d.month), Pad2(d.day), Pad4(d.year));
    ParseRendered(d);
    MonthName(d.month) + " " + Pad2(d.day) + ", " + Pad4(d.year)
  }
}
