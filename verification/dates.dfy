/** Calendar dates as the stored-files table reads them back: the
    "DD/MM/YYYY" head of a rendered date-time, turned into the ISO form
    "YYYY-MM-DD" and then into a point in time (`Date.prototype.getTime`,
    midnight UTC of that day). */
module Dates {
  import opened Common

  datatype Date = Date(year: nat, month: nat, day: nat)

  predicate IsLeap(y: nat) {
    y % 4 == 0 && (y % 100 != 0 || y % 400 == 0)
  }

  function DaysInYear(y: nat): nat {
    if IsLeap(y) then 366 else 365
  }

  function DaysInMonth(y: nat, m: nat): nat {
    if m == 2 then (if IsLeap(y) then 29 else 28)
    else if m == 4 || m == 6 || m == 9 || m == 11 then 30
    else 31
  }

  /** A real day of the proleptic Gregorian calendar. */
  predicate ValidDate(d: Date) {
    1 <= d.month <= 12 && 1 <= d.day <= DaysInMonth(d.year, d.month)
  }

  /** Days of year `y` before the first of month `m` (1-based). */
  function DaysBeforeMonth(y: nat, m: nat): nat
    requires 1 <= m <= 13
  {
    var common := if m == 1 then 0 else if m == 2 then 31 else if m == 3 then 59
      else if m == 4 then 90 else if m == 5 then 120 else if m == 6 then 151
      else if m == 7 then 181 else if m == 8 then 212 else if m == 9 then 243
      else if m == 10 then 273 else if m == 11 then 304 else if m == 12 then 334 else 365;
    if IsLeap(y) && m > 2 then common + 1 else common
  }

  /** Days from 1 January of year 0 to 1 January of year `y`. */
  function DaysBeforeYear(y: nat): nat {
    if y == 0 then 0 else DaysBeforeYear(y - 1) + DaysInYear(y - 1)
  }

  /** Days from 1 January of year 0 to `d`. */
  function DayNumber(d: Date): nat
    requires ValidDate(d)
  {
    DaysBeforeYear(d.year) + DaysBeforeMonth(d.year, d.month) + d.day - 1
  }

  const MillisPerDay: nat := 86_400_000

  /** `getTime()` of midnight UTC on `d`, up to the constant offset between
      year 0 and 1970, which cancels in every comparison and difference. */
  function Millis(d: Date): int
    requires ValidDate(d)
  {
    DayNumber(d) * MillisPerDay
  }

  /** Calendar order: by year, then month, then day. */
  predicate Before(a: Date, b: Date) {
    a.year < b.year
    || (a.year == b.year && a.month < b.month)
    || (a.year == b.year && a.month == b.month && a.day < b.day)
  }

  /** The months of a year account for all its days. */
  lemma MonthsFillYear(y: nat, m: nat)
    requires 1 <= m <= 12
    ensures DaysBeforeMonth(y, m) + DaysInMonth(y, m) == DaysBeforeMonth(y, m + 1)
    ensures DaysBeforeMonth(y, 13) == DaysInYear(y)
  {
  }

  lemma {:induction false} DaysBeforeYearMonotone(y: nat, z: nat)
    requires y < z
    ensures DaysBeforeYear(y) + DaysInYear(y) <= DaysBeforeYear(z)
    decreases z - y
  {
    if y + 1 < z {
      DaysBeforeYearMonotone(y + 1, z);
    }
  }

  /** A valid date lies within its own year's days. */
  lemma DayWithinYear(d: Date)
    requires ValidDate(d)
    ensures DaysBeforeYear(d.year) <= DayNumber(d) < DaysBeforeYear(d.year) + DaysInYear(d.year)
  {
  }

  /** A valid date lies within its own month's days. */
  lemma DayWithinMonth(d: Date)
    requires ValidDate(d)
    ensures DaysBeforeYear(d.year) + DaysBeforeMonth(d.year, d.month) <= DayNumber(d)
    ensures DayNumber(d) < DaysBeforeYear(d.year) + DaysBeforeMonth(d.year, d.month + 1)
  {
  }

  /** Day numbers follow calendar order. */
  lemma BeforeDayNumber(a: Date, b: Date)
    requires ValidDate(a) && ValidDate(b) && Before(a, b)
    ensures DayNumber(a) < DayNumber(b)
  {
    if a.year < b.year {
      DayWithinYear(a);
      DayWithinYear(b);
      DaysBeforeYearMonotone(a.year, b.year);
    } else if a.month < b.month {
      DayWithinMonth(a);
      DayWithinMonth(b);
      assert DaysBeforeMonth(a.year, a.month + 1) <= DaysBeforeMonth(b.year, b.month);
    }
  }

  /** Comparing `getTime()` of two valid dates is comparing them on the
      calendar, in both directions; equal times mean the same day. */
  lemma MillisOrder(a: Date, b: Date)
    requires ValidDate(a) && ValidDate(b)
    ensures Millis(a) < Millis(b) <==> Before(a, b)
    ensures Millis(a) == Millis(b) <==> a == b
  {
    if Before(a, b) {
      BeforeDayNumber(a, b);
    } else if Before(b, a) {
      BeforeDayNumber(b, a);
    } else {
      assert a == b;
    }
  }

  // ---------------------------------------------------------------------
  // Reading the date back from a rendered date-time

  /** `n` ASCII digits at position `i` of `s`. */
  predicate DigitsAt(s: string, i: nat, n: nat) {
    i + n <= |s| && AllDigits(s[i..i + n])
  }

  /** `dateTime.split(' ')[0].split('/')` yields exactly a two-digit day, a
      two-digit month and a four-digit year, so the reversed and re-joined
      text is an ISO date "YYYY-MM-DD". */
  predicate HasDatePart(dateTime: string) {
    && |dateTime| >= 10
    && DigitsAt(dateTime, 0, 2) && dateTime[2] == '/'
    && DigitsAt(dateTime, 3, 2) && dateTime[5] == '/'
    && DigitsAt(dateTime, 6, 4)
    && (|dateTime| == 10 || dateTime[10] == ' ')
  }

  /** The day a rendered date-time names, when its date part has that shape. */
  function DateOf(dateTime: string): (r: Option<Date>)
    ensures r.Some? <==> HasDatePart(dateTime)
  {
    if HasDatePart(dateTime) then
      Some(Date(Value(dateTime[6..10]), Value(dateTime[3..5]), Value(dateTime[0..2])))
    else None
  }

  /** The date part parses to a real day, so `getTime()` is a number. */
  predicate Dated(dateTime: string) {
    DateOf(dateTime).Some? && ValidDate(DateOf(dateTime).value)
  }

  /** The sort key of a rendered date-time: `getTime()` of its day, and 0 for
      text without one (never used: sorting requires dated rows). */
  function DateKey(dateTime: string): int {
    if Dated(dateTime) then Millis(DateOf(dateTime).value) else 0
  }
}
