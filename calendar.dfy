/** Already-parsed timestamps in the proleptic Gregorian calendar.
    A timestamp is a calendar date plus the second of that day; a date can be
    truncated to its calendar month and turned into a day ordinal, so that
    differences of dates are whole days as in Python's `date - date`. */
module Calendar {

  datatype Date = Date(year: int, month: int, day: int)

  /** `second` is the second of the day, 0 .. 86399. */
  datatype Timestamp = Timestamp(date: Date, second: int)

  datatype YearMonth = YearMonth(year: int, month: int)

  predicate IsLeapYear(y: int) {
    y % 4 == 0 && (y % 100 != 0 || y % 400 == 0)
  }

  function DaysInMonth(y: int, m: int): int {
    if m == 2 then (if IsLeapYear(y) then 29 else 28)
    else if m == 4 || m == 6 || m == 9 || m == 11 then 30
    else 31
  }

  predicate ValidDate(d: Date) {
    1 <= d.month <= 12 && 1 <= d.day <= DaysInMonth(d.year, d.month)
  }

  predicate ValidTimestamp(t: Timestamp) {
    ValidDate(t.date) && 0 <= t.second < 86400
  }

  /** Midnight at the start of a date: what a bare date string compares as. */
  function Midnight(d: Date): (t: Timestamp)
    ensures ValidDate(d) ==> ValidTimestamp(t)
    ensures t.date == d
    ensures forall u: Timestamp :: ValidTimestamp(u) && u.date == d ==> TsLe(t, u)
  {
    Timestamp(d, 0)
  }

  // ---------------------------------------------------------------- ordering

  predicate DateLt(a: Date, b: Date) {
    a.year < b.year
    || (a.year == b.year && (a.month < b.month || (a.month == b.month && a.day < b.day)))
  }

  predicate DateLe(a: Date, b: Date) {
    DateLt(a, b) || a == b
  }

  /** Chronological order of timestamps: by date, then by second of the day. */
  predicate TsLe(a: Timestamp, b: Timestamp) {
    DateLt(a.date, b.date) || (a.date == b.date && a.second <= b.second)
  }

  lemma TsLeTotal(a: Timestamp, b: Timestamp)
    ensures TsLe(a, b) || TsLe(b, a)
    ensures TsLe(a, b) && TsLe(b, a) ==> a == b
  {
  }

  lemma TsLeTransitive(a: Timestamp, b: Timestamp, c: Timestamp)
    requires TsLe(a, b) && TsLe(b, c)
    ensures TsLe(a, c)
  {
  }

  /** The latest of a non-empty list of timestamps (pandas `max`). */
  function Latest(ts: seq<Timestamp>): (r: Timestamp)
    requires |ts| > 0
    ensures r in ts
    ensures forall t :: t in ts ==> TsLe(t, r)
  {
    if |ts| == 1 then ts[0]
    else
      var m := Latest(ts[1..]);
      TsLeTotal(ts[0], m);
      if TsLe(ts[0], m) then m
      else
        assert forall t :: t in ts[1..] ==> TsLe(t, ts[0]) by {
          forall t | t in ts[1..] ensures TsLe(t, ts[0]) { TsLeTransitive(t, m, ts[0]); }
        }
        ts[0]
  }

  /** The earliest of a non-empty list of timestamps (pandas `min`). */
  function Earliest(ts: seq<Timestamp>): (r: Timestamp)
    requires |ts| > 0
    ensures r in ts
    ensures forall t :: t in ts ==> TsLe(r, t)
  {
    if |ts| == 1 then ts[0]
    else
      var m := Earliest(ts[1..]);
      TsLeTotal(ts[0], m);
      if TsLe(m, ts[0]) then m
      else
        assert forall t :: t in ts[1..] ==> TsLe(ts[0], t) by {
          forall t | t in ts[1..] ensures TsLe(ts[0], t) { TsLeTransitive(ts[0], m, t); }
        }
        ts[0]
  }

  // ------------------------------------------------------------ day ordinal

  /** Days from 0001-01-01 to the first day of year `y`. */
  function DaysBeforeYear(y: int): int {
    var p := y - 1;
    365 * p + p / 4 - p / 100 + p / 400
  }

  /** Days from the first of the year to the first of month `m`. */
  function DaysBeforeMonth(y: int, m: int): int {
    (if m <= 1 then 0
     else if m == 2 then 31
     else if m == 3 then 59
     else if m == 4 then 90
     else if m == 5 then 120
     else if m == 6 then 151
     else if m == 7 then 181
     else if m == 8 then 212
     else if m == 9 then 243
     else if m == 10 then 273
     else if m == 11 then 304
     else 334)
    + (if m > 2 && IsLeapYear(y) then 1 else 0)
  }

  /** Day ordinal of a date, 0 for 0001-01-01 (Python's `toordinal() - 1`). */
  function DayNumber(d: Date): int {
    DaysBeforeYear(d.year) + DaysBeforeMonth(d.year, d.month) + d.day - 1
  }

  lemma FloorStep4(y: int)
    ensures y / 4 - (y - 1) / 4 == if y % 4 == 0 then 1 else 0
  {
  }

  lemma FloorStep100(y: int)
    ensures y / 100 - (y - 1) / 100 == if y % 100 == 0 then 1 else 0
  {
  }

  lemma FloorStep400(y: int)
    ensures y / 400 - (y - 1) / 400 == if y % 400 == 0 then 1 else 0
  {
  }

  /** A year has 366 days exactly when it is a leap year, 365 otherwise. */
  lemma YearLength(y: int)
    ensures DaysBeforeYear(y + 1) - DaysBeforeYear(y) == if IsLeapYear(y) then 366 else 365
  {
    FloorStep4(y);
    FloorStep100(y);
    FloorStep400(y);
    if y % 400 == 0 {
      assert y % 100 == 0 && y % 4 == 0;
    } else if y % 100 == 0 {
      assert y % 4 == 0;
    }
  }

  /** A valid date's ordinal lies inside its own year. */
  lemma DayNumberInYear(d: Date)
    requires ValidDate(d)
    ensures DaysBeforeYear(d.year) <= DayNumber(d) < DaysBeforeYear(d.year + 1)
  {
    YearLength(d.year);
  }

  lemma {:induction false} YearsAscend(y1: int, y2: int)
    requires y1 < y2
    ensures DaysBeforeYear(y1 + 1) <= DaysBeforeYear(y2)
    decreases y2 - y1
  {
    if y1 + 1 < y2 {
      YearsAscend(y1 + 1, y2);
      YearLength(y1 + 1);
    }
  }

  /** Day ordinals follow the calendar order of valid dates, strictly. */
  lemma DayNumberStrictlyMonotone(a: Date, b: Date)
    requires ValidDate(a) && ValidDate(b)
    requires DateLt(a, b)
    ensures DayNumber(a) < DayNumber(b)
  {
    if a.year < b.year {
      DayNumberInYear(a);
      DayNumberInYear(b);
      YearsAscend(a.year, b.year);
    }
  }

  /** Day ordinals follow the calendar order of valid dates; equal ordinals mean equal dates. */
  lemma DayNumberMonotone(a: Date, b: Date)
    requires ValidDate(a) && ValidDate(b)
    ensures DateLe(a, b) <==> DayNumber(a) <= DayNumber(b)
  {
    if DateLt(a, b) {
      DayNumberStrictlyMonotone(a, b);
    } else if DateLt(b, a) {
      DayNumberStrictlyMonotone(b, a);
    }
  }

  /** Whole days from date a to a date b on or after it: never negative, and
      zero only on the same date. */
  lemma DaysBetweenOrdered(a: Date, b: Date)
    requires ValidDate(a) && ValidDate(b)
    requires DateLe(a, b)
    ensures DayNumber(b) - DayNumber(a) >= 0
    ensures DayNumber(b) - DayNumber(a) == 0 <==> a == b
  {
    if a != b {
      DayNumberStrictlyMonotone(a, b);
    }
  }

  /** The calendar day after d. */
  function NextDate(d: Date): Date {
    if d.day < DaysInMonth(d.year, d.month) then Date(d.year, d.month, d.day + 1)
    else if d.month < 12 then Date(d.year, d.month + 1, 1)
    else Date(d.year + 1, 1, 1)
  }

  /** The day ordinal counts calendar days: the next day of a real date is a
      real date, later, with an ordinal one higher. */
  lemma NextDateIsOneDayLater(d: Date)
    requires ValidDate(d)
    ensures ValidDate(NextDate(d)) && DateLt(d, NextDate(d))
    ensures DayNumber(NextDate(d)) == DayNumber(d) + 1
  {
    if d.day == DaysInMonth(d.year, d.month) && d.month == 12 {
      YearLength(d.year);
    }
  }

  /** The date n days after d. */
  function DaysAfter(d: Date, n: nat): Date {
    if n == 0 then d else NextDate(DaysAfter(d, n - 1))
  }

  /** The ordinal of the date n days after a real date is n higher: a
      difference of ordinals is a number of calendar days. */
  lemma {:induction false} DaysAfterCountsDays(d: Date, n: nat)
    requires ValidDate(d)
    ensures ValidDate(DaysAfter(d, n))
    ensures DayNumber(DaysAfter(d, n)) - DayNumber(d) == n
  {
    if n > 0 {
      DaysAfterCountsDays(d, n - 1);
      NextDateIsOneDayLater(DaysAfter(d, n - 1));
    }
  }

  // ---------------------------------------------------------------- months

  /** The calendar month a timestamp falls in (what a monthly resample buckets by). */
  function MonthOf(t: Timestamp): YearMonth {
    YearMonth(t.date.year, t.date.month)
  }

  /** Months numbered consecutively: January of year 0 is 0, each next month one more. */
  function MonthIndex(ym: YearMonth): int {
    ym.year * 12 + ym.month - 1
  }

  function MonthAt(i: int): (ym: YearMonth)
    ensures 1 <= ym.month <= 12
    ensures MonthIndex(ym) == i
  {
    YearMonth(i / 12, i % 12 + 1)
  }

  lemma MonthAtIndex(ym: YearMonth)
    requires 1 <= ym.month <= 12
    ensures MonthAt(MonthIndex(ym)) == ym
  {
    var i := MonthIndex(ym);
    assert i == ym.year * 12 + (ym.month - 1);
    assert i / 12 == ym.year && i % 12 == ym.month - 1;
  }

  /** Later timestamps never fall in an earlier month. */
  lemma MonthIndexMonotone(a: Timestamp, b: Timestamp)
    requires 1 <= a.date.month <= 12 && 1 <= b.date.month <= 12
    requires TsLe(a, b)
    ensures MonthIndex(MonthOf(a)) <= MonthIndex(MonthOf(b))
  {
  }
}
