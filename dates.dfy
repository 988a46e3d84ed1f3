/** Proleptic Gregorian calendar arithmetic.
    A date is an integer day number: the number of days since 1970-01-01, the
    day a JavaScript `Date` counts from. Stepping a `Date` with
    `setDate(getDate() + k)` is then plain addition of `k`, because `setDate`
    normalises an out-of-range day of the month into the neighbouring months. */
module Dates {
  import opened Arith

  /** The local calendar components of a date: what `getFullYear()`,
      `getMonth() + 1` and `getDate()` report. */
  datatype Civil = Civil(year: int, month: int, day: int)

  predicate IsLeapYear(y: int) {
    y % 4 == 0 && (y % 100 != 0 || y % 400 == 0)
  }

  function DaysInYear(y: int): int {
    if IsLeapYear(y) then 366 else 365
  }

  function DaysInMonth(y: int, m: int): int
    requires 1 <= m <= 12
  {
    if m == 2 then (if IsLeapYear(y) then 29 else 28)
    else if m == 4 || m == 6 || m == 9 || m == 11 then 30
    else 31
  }

  predicate ValidCivil(c: Civil) {
    1 <= c.month <= 12 && 1 <= c.day <= DaysInMonth(c.year, c.month)
  }

  /** Days of year `y` that come before the first of month `m` (m == 13: the whole year). */
  function DaysBeforeMonth(y: int, m: int): int
    requires 1 <= m <= 13
  {
    [0, 31, 59, 90, 120, 151, 181, 212, 243, 273, 304, 334, 365][m - 1]
      + (if IsLeapYear(y) && m > 2 then 1 else 0)
  }

  /** Number of leap years among the years 1 .. y - 1 (counted backwards below year 1). */
  function LeapYearsBefore(y: int): int {
    (y - 1) / 4 - (y - 1) / 100 + (y - 1) / 400
  }

  /** Day number of January 1 of year `y`. */
  function YearStart(y: int): int {
    365 * (y - 1970) + LeapYearsBefore(y) - LeapYearsBefore(1970)
  }

  /** Day number of a calendar date. */
  function FromCivil(c: Civil): int
    requires 1 <= c.month <= 12
  {
    YearStart(c.year) + DaysBeforeMonth(c.year, c.month) + c.day - 1
  }

  /** JavaScript `getDay()`: 0 is Sunday, 1 Monday, ..., 6 Saturday.
      1970-01-01 was a Thursday. */
  function Weekday(date: int): (w: int)
    ensures 0 <= w < 7
  {
    (date + 4) % 7
  }

  lemma DivStep4(x: int)
    ensures x / 4 - (x - 1) / 4 == if x % 4 == 0 then 1 else 0
  {
  }

  lemma DivStep100(x: int)
    ensures x / 100 - (x - 1) / 100 == if x % 100 == 0 then 1 else 0
    ensures x % 100 == 0 ==> x % 4 == 0
  {
    var q, r := x / 100, x % 100;
    if r == 0 {
      DivModUnique(x - 1, 100, q - 1, 99);
      DivModUnique(x, 4, 25 * q, 0);
    } else {
      DivModUnique(x - 1, 100, q, r - 1);
    }
  }

  lemma DivStep400(x: int)
    ensures x / 400 - (x - 1) / 400 == if x % 400 == 0 then 1 else 0
    ensures x % 400 == 0 ==> x % 100 == 0
  {
    var q, r := x / 400, x % 400;
    if r == 0 {
      DivModUnique(x - 1, 400, q - 1, 399);
      DivModUnique(x, 100, 4 * q, 0);
    } else {
      DivModUnique(x - 1, 400, q, r - 1);
    }
  }

  lemma YearStep(y: int)
    ensures YearStart(y + 1) == YearStart(y) + DaysInYear(y)
  {
    DivStep4(y);
    DivStep100(y);
    DivStep400(y);
    assert LeapYearsBefore(y + 1) - LeapYearsBefore(y) == if IsLeapYear(y) then 1 else 0;
  }

  lemma MonthStep(y: int, m: int)
    requires 1 <= m <= 12
    ensures DaysBeforeMonth(y, m + 1) == DaysBeforeMonth(y, m) + DaysInMonth(y, m)
    ensures DaysBeforeMonth(y, 13) == DaysInYear(y)
  {
  }

  lemma {:induction false} YearStartMonotone(a: int, b: int)
    requires a <= b
    ensures YearStart(a) + 365 * (b - a) <= YearStart(b)
    decreases b - a
  {
    if a < b {
      YearStartMonotone(a, b - 1);
      YearStep(b - 1);
    }
  }

  lemma DaysBeforeMonthMonotone(y: int, a: int, b: int)
    requires 1 <= a < b <= 13
    ensures DaysBeforeMonth(y, a) < DaysBeforeMonth(y, b)
  {
  }

  /** The year holding day `date`, searched from year `y`. */
  function FindYear(date: int, y: int): (r: int)
    ensures YearStart(r) <= date < YearStart(r + 1)
    decreases (if date < YearStart(y) then 1 else 0),
              (if date < YearStart(y) then YearStart(y) - date else date - YearStart(y))
  {
    YearStep(y - 1);
    YearStep(y);
    if date < YearStart(y) then FindYear(date, y - 1)
    else if date >= YearStart(y + 1) then FindYear(date, y + 1)
    else y
  }

  /** The month of year `y` holding day `dayOfYear` (0-based), searched from month `m`. */
  function FindMonth(y: int, dayOfYear: int, m: int): (r: int)
    requires 1 <= m <= 12
    requires DaysBeforeMonth(y, m) <= dayOfYear < DaysInYear(y)
    ensures m <= r <= 12
    ensures DaysBeforeMonth(y, r) <= dayOfYear < DaysBeforeMonth(y, r + 1)
    decreases 12 - m
  {
    MonthStep(y, m);
    if m == 12 || dayOfYear < DaysBeforeMonth(y, m + 1) then m
    else FindMonth(y, dayOfYear, m + 1)
  }

  /** The calendar date of a day number (what the `Date` getters report).
      `ToCivilSpec` states what it computes. */
  function ToCivil(date: int): (c: Civil)
    ensures 1 <= c.month <= 12 && 1 <= c.day
  {
    var y := FindYear(date, 1970);
    YearStep(y);
    var m := FindMonth(y, date - YearStart(y), 1);
    MonthStep(y, m);
    Civil(y, m, date - YearStart(y) - DaysBeforeMonth(y, m) + 1)
  }

  /** `ToCivil` finds a valid calendar date that denotes `date`, in the year whose days hold it. */
  lemma ToCivilSpec(date: int)
    ensures ValidCivil(ToCivil(date))
    ensures FromCivil(ToCivil(date)) == date
    ensures YearStart(ToCivil(date).year) <= date < YearStart(ToCivil(date).year + 1)
  {
    var y := FindYear(date, 1970);
    YearStep(y);
    var m := FindMonth(y, date - YearStart(y), 1);
    MonthStep(y, m);
  }

  /** A day belongs to exactly one year. */
  lemma YearUnique(date: int, a: int, b: int)
    requires YearStart(a) <= date < YearStart(a + 1)
    requires YearStart(b) <= date < YearStart(b + 1)
    ensures a == b
  {
    if a < b {
      YearStartMonotone(a + 1, b);
    } else if b < a {
      YearStartMonotone(b + 1, a);
    }
  }

  /** A day of a year belongs to exactly one month. */
  lemma MonthUnique(y: int, dayOfYear: int, a: int, b: int)
    requires 1 <= a <= 12 && 1 <= b <= 12
    requires DaysBeforeMonth(y, a) <= dayOfYear < DaysBeforeMonth(y, a + 1)
    requires DaysBeforeMonth(y, b) <= dayOfYear < DaysBeforeMonth(y, b + 1)
    ensures a == b
  {
    if a < b {
      if a + 1 < b { DaysBeforeMonthMonotone(y, a + 1, b); }
    } else if b < a {
      if b + 1 < a { DaysBeforeMonthMonotone(y, b + 1, a); }
    }
  }

  /** A valid calendar date falls inside its own year and its own month. */
  lemma CivilInYear(c: Civil)
    requires ValidCivil(c)
    ensures YearStart(c.year) <= FromCivil(c) < YearStart(c.year + 1)
    ensures DaysBeforeMonth(c.year, c.month) <= FromCivil(c) - YearStart(c.year) < DaysBeforeMonth(c.year, c.month + 1)
  {
    MonthStep(c.year, c.month);
    YearStep(c.year);
    if c.month < 12 {
      DaysBeforeMonthMonotone(c.year, c.month + 1, 13);
    }
  }

  /** Every valid calendar date is the image of exactly one day number. */
  lemma ToCivilFromCivil(c: Civil)
    requires ValidCivil(c)
    ensures ToCivil(FromCivil(c)) == c
  {
    var n := FromCivil(c);
    var r := ToCivil(n);
    ToCivilSpec(n);
    CivilInYear(c);
    CivilInYear(r);
    YearUnique(n, r.year, c.year);
    MonthUnique(c.year, n - YearStart(c.year), r.month, c.month);
  }

  /** Given the year `a` holding `date`, year `y` holds it exactly when it is `a`. */
  lemma YearOf(date: int, a: int, y: int)
    requires YearStart(a) <= date < YearStart(a + 1)
    ensures YearStart(y) <= date < YearStart(y + 1) <==> a == y
  {
    if YearStart(y) <= date < YearStart(y + 1) {
      YearUnique(date, a, y);
    }
  }

  /** A day lies between the first and the last day of year `y` exactly when `y` is its year. */
  lemma InYearIff(y: int, date: int)
    ensures YearStart(y) <= date < YearStart(y + 1) <==> ToCivil(date).year == y
  {
    ToCivilSpec(date);
    YearOf(date, ToCivil(date).year, y);
  }

  /** January 1 and December 31 of a year bound exactly the days whose year it is. */
  lemma YearBounds(y: int)
    ensures FromCivil(Civil(y, 1, 1)) == YearStart(y)
    ensures FromCivil(Civil(y, 12, 31)) == YearStart(y + 1) - 1
    ensures forall date :: YearStart(y) <= date < YearStart(y + 1) <==> ToCivil(date).year == y
  {
    YearStep(y);
    forall date
      ensures YearStart(y) <= date < YearStart(y + 1) <==> ToCivil(date).year == y
    {
      InYearIff(y, date);
    }
  }

  /** Weekdays advance by one per day and repeat every seven days. */
  lemma WeekdayShift(date: int, k: int)
    requires 0 <= k
    ensures Weekday(date + k) == (Weekday(date) + k) % 7
  {
  }
}
