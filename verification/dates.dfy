/** Calendar dates with the semantics of `java.time.LocalDate` in the ISO
    proleptic Gregorian calendar: `plusDays(1)`, `minusMonths`,
    `minusYears(1)`, `isBefore`, `ChronoUnit.DAYS.between`,
    `ChronoUnit.MONTHS.between` and parsing with `ISO_LOCAL_DATE`. */
module Dates {

  import opened Nullable
  import JavaLang

  datatype Date = Date(year: int, month: int, day: int)

  predicate IsLeapYear(y: int) {
    y % 4 == 0 && (y % 100 != 0 || y % 400 == 0)
  }

  function MonthLength(y: int, m: int): (n: int)
    ensures 28 <= n <= 31
  {
    if m == 2 then (if IsLeapYear(y) then 29 else 28)
    else if m == 4 || m == 6 || m == 9 || m == 11 then 30
    else 31
  }

  function YearLength(y: int): int {
    if IsLeapYear(y) then 366 else 365
  }

  predicate Valid(d: Date) {
    1 <= d.month <= 12 && 1 <= d.day <= MonthLength(d.year, d.month)
  }

  // ---------------------------------------------------------------------
  // Day numbering
  // ---------------------------------------------------------------------

  /** Leap years in [0, y) (negative when y < 0): each of ceil(y/4),
      ceil(y/100), ceil(y/400) written with floor division. */
  function LeapsBefore(y: int): int {
    (y + 3) / 4 - (y + 99) / 100 + (y + 399) / 400
  }

  /** Days from 0000-01-01 to the first day of year y. */
  function DaysBeforeYear(y: int): int {
    365 * y + LeapsBefore(y)
  }

  /** Days in the months of year y before month m. */
  function DaysBeforeMonth(y: int, m: int): (n: int)
    requires 1 <= m <= 13
    decreases m
    ensures 0 <= n
  {
    if m == 1 then 0 else DaysBeforeMonth(y, m - 1) + MonthLength(y, m - 1)
  }

  /** Days from 0000-01-01 to d; `DayNumber(d) - 719528` is Java's epoch day. */
  function DayNumber(d: Date): int
    requires 1 <= d.month <= 12
  {
    DaysBeforeYear(d.year) + DaysBeforeMonth(d.year, d.month) + d.day - 1
  }

  lemma YearStep(y: int)
    ensures DaysBeforeYear(y + 1) == DaysBeforeYear(y) + YearLength(y)
  {
    CeilStep(y, 4);
    CeilStep(y, 100);
    CeilStep(y, 400);
    DivisorChain(y);
    var l1, l0 := LeapsBefore(y + 1), LeapsBefore(y);
    assert l1 - l0 == (if IsLeapYear(y) then 1 else 0);
  }

  /** 400 | y implies 100 | y, which implies 4 | y. */
  lemma DivisorChain(y: int)
    ensures y % 100 == 0 ==> y % 4 == 0
    ensures y % 400 == 0 ==> y % 100 == 0
  {
    if y % 100 == 0 {
      var q := y / 100;
      assert y == 4 * (25 * q);
    }
    if y % 400 == 0 {
      var q := y / 400;
      assert y == 100 * (4 * q);
    }
  }

  /** ceil((y + 1) / k) - ceil(y / k) is 1 exactly when k divides y. */
  lemma CeilStep(y: int, k: int)
    requires k == 4 || k == 100 || k == 400
    ensures (y + k) / k - (y + k - 1) / k == (if y % k == 0 then 1 else 0)
  {
    if k == 4 {
      CeilStep4(y);
    } else if k == 100 {
      CeilStep100(y);
    } else {
      CeilStep400(y);
    }
  }

  lemma CeilStep4(y: int)
    ensures (y + 4) / 4 - (y + 3) / 4 == (if y % 4 == 0 then 1 else 0)
  {
    var a := y / 4;
    assert (y + 4) / 4 == a + 1;
  }

  lemma CeilStep100(y: int)
    ensures (y + 100) / 100 - (y + 99) / 100 == (if y % 100 == 0 then 1 else 0)
  {
    var a := y / 100;
    assert (y + 100) / 100 == a + 1;
  }

  lemma CeilStep400(y: int)
    ensures (y + 400) / 400 - (y + 399) / 400 == (if y % 400 == 0 then 1 else 0)
  {
    var a := y / 400;
    assert (y + 400) / 400 == a + 1;
  }

  lemma WholeYear(y: int)
    ensures DaysBeforeMonth(y, 13) == YearLength(y)
  {
  }

  /** Earlier years start earlier, by at least 365 days per year. */
  lemma {:induction false} YearsMonotone(y1: int, y2: int)
    requires y1 <= y2
    ensures DaysBeforeYear(y1) + 365 * (y2 - y1) <= DaysBeforeYear(y2)
    decreases y2 - y1
  {
    if y1 < y2 {
      YearStep(y1);
      YearsMonotone(y1 + 1, y2);
    }
  }

  lemma {:induction false} MonthsMonotone(y: int, m1: int, m2: int)
    requires 1 <= m1 <= m2 <= 13
    ensures DaysBeforeMonth(y, m1) + 28 * (m2 - m1) <= DaysBeforeMonth(y, m2)
    decreases m2 - m1
  {
    if m1 < m2 {
      MonthsMonotone(y, m1, m2 - 1);
    }
  }

  /** A valid date lies inside its year. */
  lemma InsideYear(d: Date)
    requires Valid(d)
    ensures DaysBeforeYear(d.year) <= DayNumber(d) < DaysBeforeYear(d.year + 1)
  {
    YearStep(d.year);
    WholeYear(d.year);
    MonthsMonotone(d.year, d.month + 1, 13);
  }

  // ---------------------------------------------------------------------
  // Order
  // ---------------------------------------------------------------------

  /** `LocalDate.isBefore`: year, then month, then day. */
  predicate IsBefore(a: Date, b: Date) {
    a.year < b.year
    || (a.year == b.year && a.month < b.month)
    || (a.year == b.year && a.month == b.month && a.day < b.day)
  }

  /** `LocalDate.isAfter`. */
  predicate IsAfter(a: Date, b: Date) {
    IsBefore(b, a)
  }

  lemma EarlierYear(a: Date, b: Date)
    requires Valid(a) && Valid(b) && a.year < b.year
    ensures DayNumber(a) < DayNumber(b)
  {
    InsideYear(a);
    InsideYear(b);
    YearsMonotone(a.year + 1, b.year);
  }

  lemma EarlierMonth(a: Date, b: Date)
    requires Valid(a) && Valid(b) && a.year == b.year && a.month < b.month
    ensures DayNumber(a) < DayNumber(b)
  {
    MonthsMonotone(a.year, a.month + 1, b.month);
  }

  /** The calendar order and the day numbering agree. */
  lemma BeforeIffSmallerDayNumber(a: Date, b: Date)
    requires Valid(a) && Valid(b)
    ensures IsBefore(a, b) <==> DayNumber(a) < DayNumber(b)
    ensures a == b <==> DayNumber(a) == DayNumber(b)
  {
    if a.year < b.year {
      EarlierYear(a, b);
    } else if b.year < a.year {
      EarlierYear(b, a);
    } else if a.month < b.month {
      EarlierMonth(a, b);
    } else if b.month < a.month {
      EarlierMonth(b, a);
    }
  }

  // ---------------------------------------------------------------------
  // Arithmetic
  // ---------------------------------------------------------------------

  /** `plusDays(1)`. */
  function NextDay(d: Date): (r: Date)
    requires Valid(d)
    ensures Valid(r)
    ensures DayNumber(r) == DayNumber(d) + 1
  {
    if d.day < MonthLength(d.year, d.month) then Date(d.year, d.month, d.day + 1)
    else if d.month < 12 then Date(d.year, d.month + 1, 1)
    else
      YearStep(d.year);
      WholeYear(d.year);
      Date(d.year + 1, 1, 1)
  }

  /** `resolvePreviousValid`: the day of month clamped to the month's length. */
  function Clamp(y: int, m: int, day: int): (r: Date)
    requires 1 <= m <= 12 && 1 <= day
    ensures Valid(r) && r.year == y && r.month == m && r.day <= day
    ensures day <= MonthLength(y, m) ==> r.day == day
  {
    Date(y, m, if day <= MonthLength(y, m) then day else MonthLength(y, m))
  }

  /** Months since January of year 0 (`getProlepticMonth`). */
  function ProlepticMonth(d: Date): int {
    d.year * 12 + d.month - 1
  }

  /** `minusMonths(n)`: n months earlier on the calendar, the day of month
      clamped to the length of the month reached. */
  function MinusMonths(d: Date, n: int): (r: Date)
    requires Valid(d)
    ensures Valid(r)
    ensures ProlepticMonth(r) == ProlepticMonth(d) - n
    ensures r.day <= d.day
    ensures d.day <= MonthLength(r.year, r.month) ==> r.day == d.day
  {
    if n == 0 then d
    else
      var pm := ProlepticMonth(d) - n;
      Clamp(pm / 12, pm % 12 + 1, d.day)
  }

  /** `minusYears(1)`: the same month a year earlier, day clamped. */
  function MinusOneYear(d: Date): (r: Date)
    requires Valid(d)
    ensures Valid(r) && r.year == d.year - 1 && r.month == d.month && r.day <= d.day
  {
    Clamp(d.year - 1, d.month, d.day)
  }

  /** `ChronoUnit.DAYS.between(a, b)`. */
  function DaysBetween(a: Date, b: Date): (n: int)
    requires Valid(a) && Valid(b)
    ensures n < 0 <==> IsBefore(b, a)
    ensures n == 0 <==> a == b
  {
    BeforeIffSmallerDayNumber(a, b);
    BeforeIffSmallerDayNumber(b, a);
    DayNumber(b) - DayNumber(a)
  }

  /** `ChronoUnit.MONTHS.between(a, b)`: the number of complete months,
      computed by java.time as the truncated quotient by 32 of the
      difference of (prolepticMonth * 32 + dayOfMonth). */
  function MonthsBetween(a: Date, b: Date): (n: int)
    requires Valid(a) && Valid(b)
    ensures !IsBefore(b, a) ==> n >= 0
    ensures !IsBefore(a, b) ==> n <= 0
  {
    var p1 := ProlepticMonth(a) * 32 + a.day;
    var p2 := ProlepticMonth(b) * 32 + b.day;
    JavaLang.TruncDiv(p2 - p1, 32)
  }

  /** Going back n months and measuring forward gives n complete months. */
  lemma MonthsBetweenMinusMonths(d: Date, n: nat)
    requires Valid(d)
    ensures MonthsBetween(MinusMonths(d, n), d) == n
  {
    var r := MinusMonths(d, n);
    var diff := (ProlepticMonth(d) * 32 + d.day) - (ProlepticMonth(r) * 32 + r.day);
    assert diff == 32 * n + (d.day - r.day);
    assert 0 <= d.day - r.day < 32;
  }

  /** Going back any positive number of months moves strictly earlier. */
  lemma MinusMonthsIsBefore(d: Date, n: int)
    requires Valid(d) && n > 0
    ensures IsBefore(MinusMonths(d, n), d)
  {
  }

  /** Going back further never lands later. */
  lemma MinusMonthsMonotone(d: Date, n1: int, n2: int)
    requires Valid(d) && n1 <= n2
    ensures !IsBefore(MinusMonths(d, n1), MinusMonths(d, n2))
  {
  }

  /** Going back the same number of months from a later date never lands
      earlier. */
  lemma MinusMonthsMonotoneInDate(d1: Date, d2: Date, n: int)
    requires Valid(d1) && Valid(d2) && !IsBefore(d2, d1)
    ensures !IsBefore(MinusMonths(d2, n), MinusMonths(d1, n))
  {
    var r1, r2 := MinusMonths(d1, n), MinusMonths(d2, n);
    if ProlepticMonth(d1) == ProlepticMonth(d2) {
      assert r1.year == r2.year && r1.month == r2.month;
    }
  }

  /** `minusYears(1)` and `minusMonths(12)` reach the same date. */
  lemma MinusOneYearIsTwelveMonths(d: Date)
    requires Valid(d)
    ensures MinusOneYear(d) == MinusMonths(d, 12)
  {
    var pm := ProlepticMonth(d) - 12;
    assert pm == (d.year - 1) * 12 + (d.month - 1);
    assert pm / 12 == d.year - 1 && pm % 12 == d.month - 1;
  }

  // ---------------------------------------------------------------------
  // ISO_LOCAL_DATE
  // ---------------------------------------------------------------------

  /** Parses `uuuu-MM-dd` with four-digit year, as a `\d{4}-\d{2}-\d{2}`
      capture is handed to `LocalDate.parse(s, ISO_LOCAL_DATE)`. The strict
      resolver rejects month 0 or 13+, day 0 or 32+ and a day past the end
      of its month (a DateTimeParseException, here `None`). */
  function ParseIsoDate(s: string): (r: Option<Date>)
    ensures r.Some? ==> Valid(r.value) && 0 <= r.value.year <= 9999
  {
    if |s| == 10 && s[4] == '-' && s[7] == '-'
       && JavaLang.AllDigits(s[..4]) && JavaLang.AllDigits(s[5..7]) && JavaLang.AllDigits(s[8..])
    then
      var y := JavaLang.DigitsValue(s[..4]);
      var m := JavaLang.DigitsValue(s[5..7]);
      var d := JavaLang.DigitsValue(s[8..]);
      DigitsBound(s[..4]);
      if 1 <= m <= 12 && 1 <= d <= MonthLength(y, m) then Some(Date(y, m, d)) else None
    else None
  }

  lemma DigitsSnoc(s: string, c: char)
    requires JavaLang.AllDigits(s) && JavaLang.IsDigit(c)
    ensures JavaLang.AllDigits(s + [c])
    ensures JavaLang.DigitsValue(s + [c]) == JavaLang.DigitsValue(s) * 10 + JavaLang.DigitValue(c)
  {
    assert (s + [c])[..|s|] == s;
  }

  /** The value of two and of four digits, written out positionally. */
  lemma TwoDigits(s: string)
    requires JavaLang.AllDigits(s) && |s| == 2
    ensures JavaLang.DigitsValue(s) == 10 * JavaLang.DigitValue(s[0]) + JavaLang.DigitValue(s[1])
  {
    DigitsSnoc([], s[0]);
    assert s == [s[0]] + [s[1]];
    DigitsSnoc([s[0]], s[1]);
  }

  lemma FourDigits(s: string)
    requires JavaLang.AllDigits(s) && |s| == 4
    ensures JavaLang.DigitsValue(s) == 1000 * JavaLang.DigitValue(s[0]) + 100 * JavaLang.DigitValue(s[1])
                                       + 10 * JavaLang.DigitValue(s[2]) + JavaLang.DigitValue(s[3])
  {
    TwoDigits(s[..2]);
    assert s[..3] == s[..2] + [s[2]];
    DigitsSnoc(s[..2], s[2]);
    assert s == s[..3] + [s[3]];
    DigitsSnoc(s[..3], s[3]);
  }

  lemma DigitsBound(s: string)
    requires JavaLang.AllDigits(s) && |s| == 4
    ensures JavaLang.DigitsValue(s) <= 9999
  {
    FourDigits(s);
  }

  /** A digit character for 0..9. */
  function Digit(n: nat): (c: char)
    requires n < 10
    ensures JavaLang.IsDigit(c) && JavaLang.DigitValue(c) == n
  {
    ('0' as int + n) as char
  }

  /** `LocalDate.toString` for years 0..9999: `uuuu-MM-dd`, zero-padded. */
  function FormatIsoDate(d: Date): (s: string)
    requires Valid(d) && 0 <= d.year <= 9999
    ensures |s| == 10
  {
    [Digit(d.year / 1000), Digit(d.year / 100 % 10), Digit(d.year / 10 % 10), Digit(d.year % 10), '-',
     Digit(d.month / 10), Digit(d.month % 10), '-',
     Digit(d.day / 10), Digit(d.day % 10)]
  }

  /** Parsing reads back what formatting wrote. */
  lemma ParseFormatRoundTrip(d: Date)
    requires Valid(d) && 0 <= d.year <= 9999
    ensures ParseIsoDate(FormatIsoDate(d)) == Some(d)
  {
    var s := FormatIsoDate(d);
    var y := d.year;
    assert s[..4] == [Digit(y / 1000), Digit(y / 100 % 10), Digit(y / 10 % 10), Digit(y % 10)];
    assert s[5..7] == [Digit(d.month / 10), Digit(d.month % 10)];
    assert s[8..] == [Digit(d.day / 10), Digit(d.day % 10)];
    FormatFour(y);
    FormatTwo(d.month);
    FormatTwo(d.day);
  }

  /** Four zero-padded digits read back as the number written. */
  lemma FormatFour(y: int)
    requires 0 <= y <= 9999
    ensures var t := [Digit(y / 1000), Digit(y / 100 % 10), Digit(y / 10 % 10), Digit(y % 10)];
            JavaLang.AllDigits(t) && JavaLang.DigitsValue(t) == y
  {
    var t := [Digit(y / 1000), Digit(y / 100 % 10), Digit(y / 10 % 10), Digit(y % 10)];
    FourDigits(t);
    assert y == 10 * (y / 10) + y % 10;
    assert y / 10 == 10 * (y / 100) + y / 10 % 10;
    assert y / 100 == 10 * (y / 1000) + y / 100 % 10;
  }

  /** Two zero-padded digits read back as the number written. */
  lemma FormatTwo(n: int)
    requires 0 <= n <= 99
    ensures var t := [Digit(n / 10), Digit(n % 10)];
            JavaLang.AllDigits(t) && JavaLang.DigitsValue(t) == n
  {
    TwoDigits([Digit(n / 10), Digit(n % 10)]);
  }
}
