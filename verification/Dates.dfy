/** Calendar dates as YYYY-MM-DD text, as day numbers, and as UTC day bounds. */
module Dates {

  datatype Date = Date(year: nat, month: nat, day: nat)

  // -------------------------------------------------------------- calendar

  predicate Leap(year: nat) {
    year % 4 == 0 && (year % 100 != 0 || year % 400 == 0)
  }

  function YearLength(year: nat): nat {
    if Leap(year) then 366 else 365
  }

  function MonthLength(year: nat, month: nat): nat
    requires 1 <= month <= 12
  {
    if month == 2 then if Leap(year) then 29 else 28
    else if month in {4, 6, 9, 11} then 30
    else 31
  }

  predicate Valid(d: Date) {
    1 <= d.month <= 12 && 1 <= d.day <= MonthLength(d.year, d.month)
  }

  function DaysBeforeYear(year: nat): nat {
    if year == 0 then 0 else DaysBeforeYear(year - 1) + YearLength(year - 1)
  }

  function DaysBeforeMonth(year: nat, month: nat): nat
    requires 1 <= month <= 13
  {
    if month == 1 then 0 else DaysBeforeMonth(year, month - 1) + MonthLength(year, month - 1)
  }

  /** Days since 0000-01-01. */
  function DayNumber(d: Date): nat
    requires Valid(d)
  {
    DaysBeforeYear(d.year) + DaysBeforeMonth(d.year, d.month) + d.day - 1
  }

  predicate Before(a: Date, b: Date) {
    a.year < b.year || (a.year == b.year && (a.month < b.month || (a.month == b.month && a.day < b.day)))
  }

  lemma FloorStep4(n: nat)
    ensures (n + 4) / 4 == (n + 3) / 4 + (if n % 4 == 0 then 1 else 0)
  {
  }

  lemma FloorStep100(n: nat)
    ensures (n + 100) / 100 == (n + 99) / 100 + (if n % 100 == 0 then 1 else 0)
  {
  }

  lemma FloorStep400(n: nat)
    ensures (n + 400) / 400 == (n + 399) / 400 + (if n % 400 == 0 then 1 else 0)
  {
  }

  lemma Divides(n: nat)
    ensures n % 400 == 0 ==> n % 100 == 0
    ensures n % 100 == 0 ==> n % 4 == 0
  {
    assert n % 400 == 0 ==> n == 100 * (4 * (n / 400));
    assert n % 100 == 0 ==> n == 4 * (25 * (n / 100));
  }

  /** The Gregorian rule in closed form. */
  lemma {:induction false} DaysBeforeYearClosed(year: nat)
    ensures DaysBeforeYear(year) == 365 * year + (year + 3) / 4 - (year + 99) / 100 + (year + 399) / 400
  {
    if year > 0 {
      DaysBeforeYearClosed(year - 1);
      FloorStep4(year - 1);
      FloorStep100(year - 1);
      FloorStep400(year - 1);
      Divides(year - 1);
    }
  }

  lemma {:induction false} YearsGrow(a: nat, b: nat)
    requires a < b
    ensures DaysBeforeYear(a) + YearLength(a) <= DaysBeforeYear(b)
    decreases b
  {
    if a + 1 < b {
      YearsGrow(a, b - 1);
    }
  }

  lemma {:induction false} MonthsGrow(year: nat, a: nat, b: nat)
    requires 1 <= a < b <= 13
    ensures DaysBeforeMonth(year, a) + MonthLength(year, a) <= DaysBeforeMonth(year, b)
    decreases b
  {
    if a + 1 < b {
      MonthsGrow(year, a, b - 1);
    }
  }

  /** The days before a month in closed form, which fixes the length of each. */
  lemma DaysBeforeMonthClosed(year: nat, month: nat)
    requires 1 <= month <= 12
    ensures DaysBeforeMonth(year, month) == (367 * month - 362) / 12 - (if month <= 2 then 0 else if Leap(year) then 1 else 2)
    ensures month == 12 ==> MonthLength(year, month) == 31
  {
    if month > 1 {
      DaysBeforeMonthClosed(year, month - 1);
    }
  }

  lemma TwelveMonths(year: nat)
    ensures DaysBeforeMonth(year, 13) == YearLength(year)
  {
    assert DaysBeforeMonth(year, 1) == 0;
    assert DaysBeforeMonth(year, 2) == 31;
    assert DaysBeforeMonth(year, 3) == 31 + MonthLength(year, 2);
    assert DaysBeforeMonth(year, 4) == DaysBeforeMonth(year, 3) + 31;
    assert DaysBeforeMonth(year, 5) == DaysBeforeMonth(year, 4) + 30;
    assert DaysBeforeMonth(year, 6) == DaysBeforeMonth(year, 5) + 31;
    assert DaysBeforeMonth(year, 7) == DaysBeforeMonth(year, 6) + 30;
    assert DaysBeforeMonth(year, 8) == DaysBeforeMonth(year, 7) + 31;
    assert DaysBeforeMonth(year, 9) == DaysBeforeMonth(year, 8) + 31;
    assert DaysBeforeMonth(year, 10) == DaysBeforeMonth(year, 9) + 30;
    assert DaysBeforeMonth(year, 11) == DaysBeforeMonth(year, 10) + 31;
    assert DaysBeforeMonth(year, 12) == DaysBeforeMonth(year, 11) + 30;
  }

  lemma WithinYear(d: Date)
    requires Valid(d)
    ensures DaysBeforeYear(d.year) <= DayNumber(d) < DaysBeforeYear(d.year) + YearLength(d.year)
  {
    if d.month < 12 {
      MonthsGrow(d.year, d.month, 13);
    }
    TwelveMonths(d.year);
  }

  /** Calendar order is the order of day numbers. */
  lemma DayNumberOrders(a: Date, b: Date)
    requires Valid(a) && Valid(b)
    ensures Before(a, b) <==> DayNumber(a) < DayNumber(b)
    ensures a == b <==> DayNumber(a) == DayNumber(b)
  {
    WithinYear(a);
    WithinYear(b);
    if a.year < b.year {
      YearsGrow(a.year, b.year);
    } else if b.year < a.year {
      YearsGrow(b.year, a.year);
    } else if a.month < b.month {
      MonthsGrow(a.year, a.month, b.month);
    } else if b.month < a.month {
      MonthsGrow(a.year, b.month, a.month);
    }
  }

  /** The following day, across month ends and leap years. */
  function NextDay(d: Date): Date
    requires Valid(d)
  {
    if d.day < MonthLength(d.year, d.month) then d.(day := d.day + 1)
    else if d.month < 12 then Date(d.year, d.month + 1, 1)
    else Date(d.year + 1, 1, 1)
  }

  lemma NextDayFollows(d: Date)
    requires Valid(d)
    ensures Valid(NextDay(d)) && DayNumber(NextDay(d)) == DayNumber(d) + 1
  {
    TwelveMonths(d.year);
  }

  /** The calendar date of a day number. */
  function DateOf(n: nat): (d: Date)
    ensures Valid(d) && DayNumber(d) == n
  {
    if n == 0 then Date(0, 1, 1)
    else
      NextDayFollows(DateOf(n - 1));
      NextDay(DateOf(n - 1))
  }

  // ------------------------------------------------------------------ text

  predicate IsDigit(c: char) {
    '0' <= c <= '9'
  }

  function DigitValue(c: char): nat
    requires IsDigit(c)
  {
    c as int - '0' as int
  }

  function DigitChar(n: nat): (c: char)
    requires n < 10
    ensures IsDigit(c) && DigitValue(c) == n
  {
    ('0' as int + n) as char
  }

  /** Two digits as a number. */
  function Two(s: string): nat
    requires |s| == 2 && IsDigit(s[0]) && IsDigit(s[1])
  {
    10 * DigitValue(s[0]) + DigitValue(s[1])
  }

  function TwoText(n: nat): (s: string)
    requires n < 100
    ensures |s| == 2 && IsDigit(s[0]) && IsDigit(s[1]) && Two(s) == n
  {
    [DigitChar(n / 10), DigitChar(n % 10)]
  }

  /** Ten characters in the shape dddd-dd-dd. */
  predicate DateShape(s: string) {
    && |s| == 10 && s[4] == '-' && s[7] == '-'
    && IsDigit(s[0]) && IsDigit(s[1]) && IsDigit(s[2]) && IsDigit(s[3])
    && IsDigit(s[5]) && IsDigit(s[6]) && IsDigit(s[8]) && IsDigit(s[9])
  }

  function Fields(s: string): Date
    requires DateShape(s)
  {
    Date(100 * Two(s[0..2]) + Two(s[2..4]), Two(s[5..7]), Two(s[8..10]))
  }

  /** The dates the filter accepts. */
  predicate DateAccepted(s: string) {
    DateShape(s) && Valid(Fields(s))
  }

  function DateText(d: Date): (s: string)
    requires Valid(d) && d.year < 10000
    ensures DateAccepted(s) && Fields(s) == d
  {
    var s := TwoText(d.year / 100) + TwoText(d.year % 100) + "-" + TwoText(d.month) + "-" + TwoText(d.day);
    assert s[0..2] == TwoText(d.year / 100) && s[2..4] == TwoText(d.year % 100);
    assert s[5..7] == TwoText(d.month) && s[8..10] == TwoText(d.day);
    s
  }

  /** Byte order of strings. */
  ghost predicate TextBefore(a: string, b: string) {
    exists i: nat :: FirstDifference(a, b, i)
  }

  ghost predicate FirstDifference(a: string, b: string, i: nat) {
    && i <= |a| && i < |b| && a[..i] == b[..i]
    && (i == |a| || a[i] < b[i])
  }

  lemma TextOrderIsCalendarOrderOneWay(a: string, b: string)
    requires DateAccepted(a) && DateAccepted(b) && TextBefore(a, b)
    ensures Before(Fields(a), Fields(b))
  {
    var i: nat :| FirstDifference(a, b, i);
    assert i < 10;
    assert forall j :: 0 <= j < i ==> a[j] == a[..i][j] == b[..i][j] == b[j];
    assert DigitValue(a[0]) <= 9 && DigitValue(a[1]) <= 9;
  }

  lemma {:induction false} SomeDifference(a: string, b: string, n: nat) returns (i: nat)
    requires |a| == |b| && a != b && n <= |a| && a[..n] == b[..n]
    ensures FirstDifference(a, b, i) || FirstDifference(b, a, i)
    decreases |a| - n
  {
    assert a[..|a|] == a && b[..|b|] == b;
    if a[n] != b[n] {
      i := n;
    } else {
      assert a[..n + 1] == a[..n] + [a[n]] && b[..n + 1] == b[..n] + [b[n]];
      i := SomeDifference(a, b, n + 1);
    }
  }

  /** On accepted dates, string comparison is calendar comparison. */
  lemma TextOrderIsCalendarOrder(a: string, b: string)
    requires DateAccepted(a) && DateAccepted(b)
    ensures TextBefore(a, b) <==> Before(Fields(a), Fields(b))
    ensures TextBefore(a, b) <==> DayNumber(Fields(a)) < DayNumber(Fields(b))
  {
    DayNumberOrders(Fields(a), Fields(b));
    if TextBefore(a, b) {
      TextOrderIsCalendarOrderOneWay(a, b);
    } else if a != b {
      var i := SomeDifference(a, b, 0);
      TextOrderIsCalendarOrderOneWay(b, a);
    }
  }

  // ------------------------------------------------------------ UTC bounds

  /** Nanoseconds since 0000-01-01T00:00:00Z. */
  const DAY: nat := 86400000000000

  function Midnight(d: Date): nat
    requires Valid(d)
  {
    DayNumber(d) * DAY
  }

  /** The UTC date of an instant. */
  function UtcDate(t: nat): (d: Date)
    ensures Valid(d) && DayNumber(d) == t / DAY
  {
    DateOf(t / DAY)
  }

  lemma DayBounds(t: nat, n: nat)
    ensures n * DAY <= t <==> n <= t / DAY
    ensures t < (n + 1) * DAY <==> t / DAY <= n
  {
  }

  /** The bound a From date puts into the query. */
  function FromBound(from: string): nat
    requires DateAccepted(from)
  {
    Midnight(Fields(from))
  }

  /** The bound a To date puts into the query: midnight of the following day. */
  function ToBound(to: string): nat
    requires DateAccepted(to)
  {
    NextDayFollows(Fields(to));
    Midnight(NextDay(Fields(to)))
  }

  /** From and To select exactly the instants whose UTC date lies in the closed
      interval of the two dates, across month ends and leap years. */
  lemma FromBoundIsExact(from: string, t: nat)
    requires DateAccepted(from)
    ensures FromBound(from) <= t <==> !Before(UtcDate(t), Fields(from))
  {
    DayNumberOrders(UtcDate(t), Fields(from));
    DayBounds(t, DayNumber(Fields(from)));
  }

  lemma ToBoundIsExact(to: string, t: nat)
    requires DateAccepted(to)
    ensures t < ToBound(to) <==> !Before(Fields(to), UtcDate(t))
  {
    DayNumberOrders(Fields(to), UtcDate(t));
    NextDayFollows(Fields(to));
    DayBounds(t, DayNumber(Fields(to)));
  }

  /** The UTC date of an instant is the one whose day contains it. */
  lemma UtcDateIsUnique(t: nat, d: Date)
    requires Valid(d)
    ensures d == UtcDate(t) <==> Midnight(d) <= t < Midnight(d) + DAY
  {
    DayNumberOrders(d, UtcDate(t));
    DayBounds(t, DayNumber(d));
  }
}
